/** BEP 52 hash trees: the layer-by-layer root, all layers, and proof checking.
    SHA-256 is the parameter `sha`; binding results therefore end in an explicit
    collision of `sha` instead of assuming there is none. */
module Merkle {
  import opened Bytes
  import opened Powers
  import TorrentLayout

  type Hash = h: ByteString | |h| == 32 witness seq(32, _ => 0)

  type Sha = ByteString -> Hash

  const BLOCK: nat := 16384

  function Both(left: ByteString, right: ByteString): (both: ByteString)
    ensures |both| == |left| + |right| && both[..|left|] == left && both[|left|..] == right
  {
    left + right
  }

  function HashPair(sha: Sha, left: Hash, right: Hash): Hash {
    sha(Both(left, right))
  }

  /** Each hash above is the hash of two neighbours below, the left one first. */
  ghost predicate LayerAbove(sha: Sha, below: seq<Hash>, above: seq<Hash>) {
    && |above| == |below| / 2
    && forall j :: 0 <= j < |above| ==> above[j] == sha(Both(below[2 * j], below[2 * j + 1]))
  }

  /** The layer above: neighbours hashed in pairs. */
  function Pairwise(sha: Sha, layer: seq<Hash>): (next: seq<Hash>)
    ensures |next| == |layer| / 2
    decreases |layer|
  {
    if |layer| < 2 then [] else [HashPair(sha, layer[0], layer[1])] + Pairwise(sha, layer[2..])
  }

  lemma {:induction false} PairwiseAt(sha: Sha, layer: seq<Hash>, i: nat)
    requires i < |layer| / 2
    ensures Pairwise(sha, layer)[i] == HashPair(sha, layer[2 * i], layer[2 * i + 1])
    decreases |layer|
  {
    if i > 0 {
      PairwiseAt(sha, layer[2..], i - 1);
    }
  }

  /** The root as the loop computes it. */
  function FoldRoot(sha: Sha, layer: seq<Hash>): Hash
    requires layer != []
    decreases |layer|
  {
    if |layer| == 1 then layer[0] else FoldRoot(sha, Pairwise(sha, layer))
  }

  /** The root as a tree is usually defined: split in half. */
  function TreeRoot(sha: Sha, leaves: seq<Hash>, h: nat): Hash
    requires |leaves| == Pow2(h)
    decreases h
  {
    if h == 0 then leaves[0]
    else HashPair(sha, TreeRoot(sha, leaves[..Pow2(h - 1)], h - 1), TreeRoot(sha, leaves[Pow2(h - 1)..], h - 1))
  }

  lemma {:induction false} PairwiseConcat(sha: Sha, a: seq<Hash>, b: seq<Hash>)
    requires |a| % 2 == 0
    ensures Pairwise(sha, a + b) == Pairwise(sha, a) + Pairwise(sha, b)
    decreases |a|
  {
    if a == [] {
      assert a + b == b;
    } else {
      assert (a + b)[2..] == a[2..] + b;
      PairwiseConcat(sha, a[2..], b);
    }
  }

  lemma PairwiseHalves(sha: Sha, leaves: seq<Hash>, m: nat)
    requires |leaves| == 4 * m
    ensures Pairwise(sha, leaves)[..m] == Pairwise(sha, leaves[..2 * m])
    ensures Pairwise(sha, leaves)[m..] == Pairwise(sha, leaves[2 * m..])
  {
    assert leaves == leaves[..2 * m] + leaves[2 * m..];
    PairwiseConcat(sha, leaves[..2 * m], leaves[2 * m..]);
  }

  lemma {:induction false} TreeRootPairwise(sha: Sha, leaves: seq<Hash>, h: nat)
    requires h >= 1 && |leaves| == Pow2(h)
    ensures TreeRoot(sha, leaves, h) == TreeRoot(sha, Pairwise(sha, leaves), h - 1)
    decreases h
  {
    if h >= 2 {
      var n := Pow2(h - 1);
      PairwiseHalves(sha, leaves, Pow2(h - 2));
      TreeRootPairwise(sha, leaves[..n], h - 1);
      TreeRootPairwise(sha, leaves[n..], h - 1);
    }
  }

  /** On a full tree the layer-by-layer root is the split-in-half root. */
  lemma {:induction false} FoldIsTree(sha: Sha, leaves: seq<Hash>, h: nat)
    requires |leaves| == Pow2(h)
    ensures FoldRoot(sha, leaves) == TreeRoot(sha, leaves, h)
    decreases h
  {
    if h > 0 {
      TreeRootPairwise(sha, leaves, h);
      FoldIsTree(sha, Pairwise(sha, leaves), h - 1);
    }
  }

  // ---- The loops ----

  method NextLayer(sha: Sha, layer: seq<Hash>) returns (next: seq<Hash>)
    ensures next == Pairwise(sha, layer)
  {
    next := [];
    for i := 0 to |layer| / 2
      invariant |next| == i
      invariant forall k :: 0 <= k < i ==> next[k] == Pairwise(sha, layer)[k]
    {
      PairwiseAt(sha, layer, i);
      next := next + [HashPair(sha, layer[i * 2], layer[i * 2 + 1])];
    }
  }

  method MerkleRoot(sha: Sha, leaves: seq<Hash>) returns (root: Hash)
    requires leaves != []
    ensures root == FoldRoot(sha, leaves)
  {
    var layer := leaves;
    while |layer| > 1
      invariant layer != [] && FoldRoot(sha, layer) == FoldRoot(sha, leaves)
      decreases |layer|
    {
      layer := NextLayer(sha, layer);
    }
    root := layer[0];
  }

  /** Every layer is the pairwise hash of the one below it; the first is the
      leaves and the last is the root alone. */
  method MerkleLayers(sha: Sha, leaves: seq<Hash>) returns (layers: seq<seq<Hash>>)
    ensures leaves == [] ==> layers == []
    ensures leaves != [] ==>
              && layers != [] && layers[0] == leaves
              && (forall i :: 0 < i < |layers| ==> layers[i] == Pairwise(sha, layers[i - 1]))
              && layers[|layers| - 1] == [FoldRoot(sha, leaves)]
    ensures forall i :: 0 < i < |layers| ==> LayerAbove(sha, layers[i - 1], layers[i])
  {
    if |leaves| == 0 {
      return [];
    }
    var layer := leaves;
    layers := [layer];
    while |layer| > 1
      invariant layer != [] && layers != [] && layers[0] == leaves && layers[|layers| - 1] == layer
      invariant forall i :: 0 < i < |layers| ==> layers[i] == Pairwise(sha, layers[i - 1])
      invariant FoldRoot(sha, layer) == FoldRoot(sha, leaves)
      decreases |layer|
    {
      layer := NextLayer(sha, layer);
      layers := layers + [layer];
    }
    forall i | 0 < i < |layers|
      ensures LayerAbove(sha, layers[i - 1], layers[i])
    {
      forall j | 0 <= j < |layers[i]|
        ensures layers[i][j] == sha(Both(layers[i - 1][2 * j], layers[i - 1][2 * j + 1]))
      {
        PairwiseAt(sha, layers[i - 1], j);
      }
    }
  }

  method NextPow2(n: int) returns (p: nat)
    ensures n <= p && exists h :: p == Pow2(h)
    ensures forall h: nat :: n <= Pow2(h) ==> p <= Pow2(h)
  {
    assert Pow2(0) == 1;
    if n <= 1 {
      return 1;
    }
    p := 1;
    ghost var h := 0;
    while p < n
      invariant p == Pow2(h) && (h > 0 ==> Pow2(h - 1) < n)
      decreases n - p
    {
      p := p * 2;
      h := h + 1;
    }
    forall g: nat | n <= Pow2(g)
      ensures p <= Pow2(g)
    {
      if g < h {
        Pow2Monotone(g, h - 1);
      } else {
        Pow2Monotone(h, g);
      }
    }
  }

  // ---- Proofs ----

  /** Division and remainder by two, truncating toward zero. */
  function Half(idx: int): int {
    if idx >= 0 then idx / 2 else -(-idx / 2)
  }

  function Odd(idx: int): int {
    if idx >= 0 then idx % 2 else -(-idx % 2)
  }

  function Climb(sha: Sha, current: Hash, uncle: Hash, idx: int): Hash {
    if Odd(idx) == 0 then HashPair(sha, current, uncle) else HashPair(sha, uncle, current)
  }

  /** The root that a leaf and its uncles give. */
  function ProofRoot(sha: Sha, leaf: Hash, idx: int, proof: seq<Hash>): Hash
    decreases |proof|
  {
    if proof == [] then leaf else ProofRoot(sha, Climb(sha, leaf, proof[0], idx), Half(idx), proof[1..])
  }

  method VerifyMerkleProof(sha: Sha, root: Hash, leaf: Hash, leafIndex: int, proof: seq<Hash>) returns (ok: bool)
    ensures ok <==> ProofRoot(sha, leaf, leafIndex, proof) == root
  {
    var current, idx := leaf, leafIndex;
    for i := 0 to |proof|
      invariant ProofRoot(sha, current, idx, proof[i..]) == ProofRoot(sha, leaf, leafIndex, proof)
    {
      var uncle := proof[i];
      assert proof[i..][1..] == proof[i + 1..];
      if Odd(idx) == 0 {
        current := HashPair(sha, current, uncle);
      } else {
        current := HashPair(sha, uncle, current);
      }
      idx := Half(idx);
    }
    ok := current == root;
  }

  function Sibling(i: nat): nat {
    if i % 2 == 0 then i + 1 else i - 1
  }

  /** The sibling path of leaf `i`, bottom up. */
  function SiblingPath(sha: Sha, leaves: seq<Hash>, h: nat, i: nat): (proof: seq<Hash>)
    requires |leaves| == Pow2(h) && i < |leaves|
    ensures |proof| == h
    decreases h
  {
    if h == 0 then [] else [leaves[Sibling(i)]] + SiblingPath(sha, Pairwise(sha, leaves), h - 1, i / 2)
  }

  lemma ClimbToParent(sha: Sha, leaves: seq<Hash>, i: nat)
    requires i < |leaves| && |leaves| % 2 == 0
    ensures Climb(sha, leaves[i], leaves[Sibling(i)], i) == Pairwise(sha, leaves)[i / 2]
  {
    var j := i / 2;
    PairwiseAt(sha, leaves, j);
    if i % 2 == 0 {
      assert i == 2 * j;
    } else {
      assert i == 2 * j + 1;
    }
  }

  /** The sibling path of any leaf is accepted. */
  lemma {:induction false} SiblingPathAccepted(sha: Sha, leaves: seq<Hash>, h: nat, i: nat)
    requires |leaves| == Pow2(h) && i < |leaves|
    ensures ProofRoot(sha, leaves[i], i, SiblingPath(sha, leaves, h, i)) == FoldRoot(sha, leaves)
    decreases h
  {
    if h > 0 {
      ClimbToParent(sha, leaves, i);
      SiblingPathAccepted(sha, Pairwise(sha, leaves), h - 1, i / 2);
      assert SiblingPath(sha, leaves, h, i)[1..] == SiblingPath(sha, Pairwise(sha, leaves), h - 1, i / 2);
    }
  }

  ghost predicate Collision(sha: Sha, x: ByteString, y: ByteString) {
    x != y && sha(x) == sha(y)
  }

  lemma ClimbCollision(sha: Sha, a: Hash, u: Hash, b: Hash, v: Hash, idx: nat) returns (x: ByteString, y: ByteString)
    requires Climb(sha, a, u, idx) == Climb(sha, b, v, idx) && (a != b || u != v)
    ensures Collision(sha, x, y) && |x| == |y| == 64
  {
    if idx % 2 == 0 {
      x, y := a + u, b + v;
      assert x[..32] == a && x[32..] == u && y[..32] == b && y[32..] == v;
    } else {
      x, y := u + a, v + b;
      assert x[..32] == u && x[32..] == a && y[..32] == v && y[32..] == b;
    }
  }

  lemma PathSplits(sha: Sha, leaves: seq<Hash>, h: nat, i: nat, proof: seq<Hash>)
    requires h > 0 && |leaves| == Pow2(h) && i < |leaves| && |proof| == h
    ensures var path, above := SiblingPath(sha, leaves, h, i), SiblingPath(sha, Pairwise(sha, leaves), h - 1, i / 2);
            && path[0] == leaves[Sibling(i)]
            && (proof == path <==> proof[0] == path[0] && proof[1..] == above)
  {
    var path := SiblingPath(sha, leaves, h, i);
    assert proof == [proof[0]] + proof[1..] && path == [path[0]] + path[1..];
  }

  /** One level of the climb: in the tree above, either the node or the path
      differs, or the two children hash alike. */
  lemma OneLevelUp(sha: Sha, leaves: seq<Hash>, h: nat, i: nat, leaf: Hash, proof: seq<Hash>)
    requires h > 0 && |leaves| == Pow2(h) && i < |leaves| && |proof| == h
    requires ProofRoot(sha, leaf, i, proof) == FoldRoot(sha, leaves)
    requires leaf != leaves[i] || proof != SiblingPath(sha, leaves, h, i)
    ensures var next, up := Pairwise(sha, leaves), Climb(sha, leaf, proof[0], i);
            && |next| == Pow2(h - 1) && i / 2 < |next|
            && ProofRoot(sha, up, i / 2, proof[1..]) == FoldRoot(sha, next)
            && (up == next[i / 2] && proof[1..] == SiblingPath(sha, next, h - 1, i / 2) ==>
                  Climb(sha, leaves[i], leaves[Sibling(i)], i) == up
                  && (leaf != leaves[i] || proof[0] != leaves[Sibling(i)]))
  {
    ClimbToParent(sha, leaves, i);
    PathSplits(sha, leaves, h, i, proof);
  }

  /** Any accepted proof of the right length with a different leaf, or with a
      different path for the right leaf, exhibits a collision of the pair hash. */
  lemma {:induction false} ForgedProofCollides(sha: Sha, leaves: seq<Hash>, h: nat, i: nat, leaf: Hash,
                                               proof: seq<Hash>)
    returns (x: ByteString, y: ByteString)
    requires |leaves| == Pow2(h) && i < |leaves| && |proof| == h
    requires ProofRoot(sha, leaf, i, proof) == FoldRoot(sha, leaves)
    requires leaf != leaves[i] || proof != SiblingPath(sha, leaves, h, i)
    ensures Collision(sha, x, y) && |x| == |y| == 64
    decreases h
  {
    if h > 0 {
      var next := Pairwise(sha, leaves);
      OneLevelUp(sha, leaves, h, i, leaf, proof);
      var up := Climb(sha, leaf, proof[0], i);
      if up == next[i / 2] && proof[1..] == SiblingPath(sha, next, h - 1, i / 2) {
        x, y := ClimbCollision(sha, leaf, proof[0], leaves[i], leaves[Sibling(i)], i);
      } else {
        x, y := ForgedProofCollides(sha, next, h - 1, i / 2, up, proof[1..]);
      }
    }
  }

  /** The leaf position that an index stands for in a tree of `n` leaves. */
  function Position(idx: int, n: nat): (i: nat)
    requires n > 0
    ensures i < n
  {
    Magnitude(idx) % n
  }

  /** The low `h` bits of the absolute value, as the check meets them. */
  function LowBits(idx: int, h: nat): (i: nat)
    ensures i < Pow2(h)
    decreases h
  {
    if h == 0 then 0 else (if Odd(idx) == 0 then 0 else 1) + 2 * LowBits(Half(idx), h - 1)
  }

  function Magnitude(idx: int): nat {
    if idx < 0 then -idx else idx
  }

  lemma HalvesAdd(idx: int, q: nat, p: nat, low: nat)
    requires Magnitude(Half(idx)) == q * p + low
    ensures Magnitude(idx) == q * (2 * p) + (if Odd(idx) == 0 then 0 else 1) + 2 * low
  {
    DoubleProduct(q, p);
  }

  lemma DoubleProduct(q: nat, p: nat)
    ensures q * (2 * p) == 2 * (q * p)
  {
  }

  lemma {:induction false} LowBitsRest(idx: int, h: nat) returns (q: nat)
    ensures Magnitude(idx) == q * Pow2(h) + LowBits(idx, h)
    decreases h
  {
    if h == 0 {
      q := Magnitude(idx);
    } else {
      q := LowBitsRest(Half(idx), h - 1);
      HalvesAdd(idx, q, Pow2(h - 1), LowBits(Half(idx), h - 1));
    }
  }

  lemma RemainderIs(a: nat, n: nat, q: nat, r: nat)
    requires r < n && a == q * n + r
    ensures a % n == r
  {
    TorrentLayout.QuotientOf(n, a, q);
  }

  lemma LowBitsArePosition(idx: int, h: nat)
    ensures LowBits(idx, h) == Position(idx, Pow2(h))
  {
    var q := LowBitsRest(idx, h);
    RemainderIs(Magnitude(idx), Pow2(h), q, LowBits(idx, h));
  }

  lemma {:induction false} OnlyLowBits(sha: Sha, leaf: Hash, idx: int, proof: seq<Hash>)
    ensures ProofRoot(sha, leaf, idx, proof) == ProofRoot(sha, leaf, LowBits(idx, |proof|), proof)
    decreases |proof|
  {
    if proof != [] {
      var low := LowBits(idx, |proof|);
      assert Odd(low) == 0 <==> Odd(idx) == 0;
      assert Half(low) == LowBits(Half(idx), |proof| - 1);
      OnlyLowBits(sha, Climb(sha, leaf, proof[0], idx), Half(idx), proof[1..]);
    }
  }

  /** The check never compares the index with the tree: it looks at the low bits
      of its absolute value only. */
  lemma IndexAliases(sha: Sha, leaf: Hash, idx: int, proof: seq<Hash>)
    ensures ProofRoot(sha, leaf, idx, proof) == ProofRoot(sha, leaf, Position(idx, Pow2(|proof|)), proof)
  {
    OnlyLowBits(sha, leaf, idx, proof);
    LowBitsArePosition(idx, |proof|);
  }

  lemma PositionIsIndexIff(idx: int, n: nat)
    requires n > 0
    ensures Position(idx, n) == idx <==> 0 <= idx < n
  {
    if 0 <= idx < n {
      RemainderIs(idx, n, 0, idx);
    }
  }

  /** So a full-length proof is accepted at an index exactly when it is the right
      leaf and path of the position that the index stands for, unless it exhibits
      a collision. An index in range, and no other, stands for itself. */
  lemma AcceptedIffAtPosition(sha: Sha, leaves: seq<Hash>, h: nat, idx: int, leaf: Hash, proof: seq<Hash>)
    returns (x: ByteString, y: ByteString)
    requires |leaves| == Pow2(h) && |proof| == h
    ensures var i := Position(idx, |leaves|);
            var right := leaf == leaves[i] && proof == SiblingPath(sha, leaves, h, i);
            && (right ==> ProofRoot(sha, leaf, idx, proof) == FoldRoot(sha, leaves))
            && (!right && ProofRoot(sha, leaf, idx, proof) == FoldRoot(sha, leaves) ==>
                  Collision(sha, x, y) && |x| == |y| == 64)
  {
    var i := Position(idx, |leaves|);
    IndexAliases(sha, leaf, idx, proof);
    x, y := [], [];
    if leaf == leaves[i] && proof == SiblingPath(sha, leaves, h, i) {
      SiblingPathAccepted(sha, leaves, h, i);
    } else if ProofRoot(sha, leaf, idx, proof) == FoldRoot(sha, leaves) {
      x, y := ForgedProofCollides(sha, leaves, h, i, leaf, proof);
    }
  }

  /** The layer `k` levels above the leaves. */
  function Layer(sha: Sha, leaves: seq<Hash>, k: nat): seq<Hash>
    decreases k
  {
    if k == 0 then leaves else Layer(sha, Pairwise(sha, leaves), k - 1)
  }

  lemma {:induction false} LayerRoot(sha: Sha, leaves: seq<Hash>, h: nat, k: nat)
    requires |leaves| == Pow2(h) && k <= h
    ensures |Layer(sha, leaves, k)| == Pow2(h - k)
    ensures FoldRoot(sha, Layer(sha, leaves, k)) == FoldRoot(sha, leaves)
    decreases k
  {
    if k > 0 {
      LayerRoot(sha, Pairwise(sha, leaves), h - 1, k - 1);
    }
  }

  /** The check never looks at the length of the proof. A proof that is `k` short
      is accepted exactly for a node of the layer `k` levels up, with the node's
      own sibling path, unless it exhibits a collision. */
  lemma ShortProofIsOfLayer(sha: Sha, leaves: seq<Hash>, h: nat, idx: int, leaf: Hash, proof: seq<Hash>)
    returns (x: ByteString, y: ByteString)
    requires |leaves| == Pow2(h) && |proof| <= h
    ensures var layer := Layer(sha, leaves, h - |proof|);
            && |layer| == Pow2(|proof|)
            && var i := Position(idx, |layer|);
               var right := leaf == layer[i] && proof == SiblingPath(sha, layer, |proof|, i);
               && (right ==> ProofRoot(sha, leaf, idx, proof) == FoldRoot(sha, leaves))
               && (!right && ProofRoot(sha, leaf, idx, proof) == FoldRoot(sha, leaves) ==>
                     Collision(sha, x, y) && |x| == |y| == 64)
  {
    LayerRoot(sha, leaves, h, h - |proof|);
    x, y := AcceptedIffAtPosition(sha, Layer(sha, leaves, h - |proof|), |proof|, idx, leaf, proof);
  }

  /** The index after `k` levels. */
  function IndexAbove(idx: int, k: nat): int
    decreases k
  {
    if k == 0 then idx else IndexAbove(Half(idx), k - 1)
  }

  lemma {:induction false} ProofRootSplits(sha: Sha, leaf: Hash, idx: int, proof: seq<Hash>, k: nat)
    requires k <= |proof|
    ensures ProofRoot(sha, leaf, idx, proof) ==
            ProofRoot(sha, ProofRoot(sha, leaf, idx, proof[..k]), IndexAbove(idx, k), proof[k..])
    decreases k
  {
    if k == 0 {
      assert proof[0..] == proof;
    } else {
      ProofRootSplits(sha, Climb(sha, leaf, proof[0], idx), Half(idx), proof[1..], k - 1);
      assert proof[..k][1..] == proof[1..][..k - 1] && proof[1..][k - 1..] == proof[k..];
    }
  }

  /** A proof that is `k` too long is accepted exactly when its first `k` levels
      lead to a leaf and the rest is that leaf's path, unless it exhibits a
      collision. */
  lemma LongProofLeadsToLeaf(sha: Sha, leaves: seq<Hash>, h: nat, idx: int, below: Hash, proof: seq<Hash>)
    returns (x: ByteString, y: ByteString)
    requires |leaves| == Pow2(h) && h <= |proof|
    ensures var k := |proof| - h;
            var i := Position(IndexAbove(idx, k), |leaves|);
            var right := ProofRoot(sha, below, idx, proof[..k]) == leaves[i]
                         && proof[k..] == SiblingPath(sha, leaves, h, i);
            && (right ==> ProofRoot(sha, below, idx, proof) == FoldRoot(sha, leaves))
            && (!right && ProofRoot(sha, below, idx, proof) == FoldRoot(sha, leaves) ==>
                  Collision(sha, x, y) && |x| == |y| == 64)
  {
    var k := |proof| - h;
    ProofRootSplits(sha, below, idx, proof, k);
    var leaf := ProofRoot(sha, below, idx, proof[..k]);
    x, y := AcceptedIffAtPosition(sha, leaves, h, IndexAbove(idx, k), leaf, proof[k..]);
  }

  // ---- From data to root ----

  /** Equal roots over equally many leaves: equal leaves, or a collision. */
  lemma {:induction false} RootsCollide(sha: Sha, a: seq<Hash>, b: seq<Hash>, h: nat)
    returns (x: ByteString, y: ByteString)
    requires |a| == |b| == Pow2(h) && a != b
    requires FoldRoot(sha, a) == FoldRoot(sha, b)
    ensures Collision(sha, x, y)
    decreases h
  {
    if h > 0 {
      var a', b' := Pairwise(sha, a), Pairwise(sha, b);
      if a' == b' {
        var i :| 0 <= i < |a| && a[i] != b[i];
        ClimbToParent(sha, a, i);
        ClimbToParent(sha, b, i);
        x, y := ClimbCollision(sha, a[i], a[Sibling(i)], b[i], b[Sibling(i)], i);
      } else {
        x, y := RootsCollide(sha, a', b', h - 1);
      }
    }
  }

  function LeafCount(data: ByteString): nat {
    (|data| + BLOCK - 1) / BLOCK
  }

  ghost predicate LeavesOf(sha: Sha, data: ByteString, leaves: seq<Hash>) {
    && LeafCount(data) <= |leaves|
    && (forall i :: 0 <= i < LeafCount(data) ==> leaves[i] == sha(Chunk(data, BLOCK, i)))
    && (forall i :: LeafCount(data) <= i < |leaves| ==> leaves[i] == seq(32, _ => 0))
  }

  /** The leaf layer: one hash per 16 KiB block, padded with zero hashes to a
      power of two; empty data is one leaf. */
  method MerkleLeaves(sha: Sha, data: ByteString) returns (leaves: seq<Hash>, ghost h: nat)
    ensures |leaves| == Pow2(h)
    ensures data == [] ==> leaves == [sha([])]
    ensures data != [] ==> LeavesOf(sha, data, leaves) && (h > 0 ==> Pow2(h - 1) < LeafCount(data))
  {
    assert Pow2(0) == 1;
    if |data| == 0 {
      return [sha([])], 0;
    }
    var numLeaves := (|data| + BLOCK - 1) / BLOCK;
    var paddedCount := NextPow2(numLeaves);
    h :| paddedCount == Pow2(h);
    leaves := seq(paddedCount, _ => seq(32, _ => 0));
    for i := 0 to numLeaves
      invariant |leaves| == paddedCount
      invariant forall k :: 0 <= k < i ==> leaves[k] == sha(Chunk(data, BLOCK, k))
      invariant forall k :: i <= k < paddedCount ==> leaves[k] == seq(32, _ => 0)
    {
      var start := i * BLOCK;
      var end := start + BLOCK;
      if end > |data| {
        end := |data|;
      }
      leaves := leaves[i := sha(data[start..end])];
    }
  }

  method MerkleHash(sha: Sha, data: ByteString) returns (root: Hash, ghost leaves: seq<Hash>, ghost h: nat)
    ensures |leaves| == Pow2(h) && root == FoldRoot(sha, leaves)
    ensures data == [] ==> root == sha([])
    ensures data != [] ==> LeavesOf(sha, data, leaves) && (h > 0 ==> Pow2(h - 1) < LeafCount(data))
  {
    var ls;
    ls, h := MerkleLeaves(sha, data);
    leaves := ls;
    root := MerkleRoot(sha, ls);
  }

  lemma {:induction false} HeightUnique(h: nat, g: nat, n: nat)
    requires n <= Pow2(h) && (h > 0 ==> Pow2(h - 1) < n)
    requires n <= Pow2(g) && (g > 0 ==> Pow2(g - 1) < n)
    ensures h == g
  {
    if h < g {
      Pow2Monotone(h, g - 1);
    } else if g < h {
      Pow2Monotone(g, h - 1);
    }
  }

  lemma DifferingBlock(a: ByteString, b: ByteString) returns (i: nat)
    requires |a| == |b| && a != b
    ensures i < LeafCount(a) && i * BLOCK < |a| && Chunk(a, BLOCK, i) != Chunk(b, BLOCK, i)
  {
    var k :| 0 <= k < |a| && a[k] != b[k];
    i := k / BLOCK;
    assert Chunk(a, BLOCK, i)[k - i * BLOCK] == a[k] && Chunk(b, BLOCK, i)[k - i * BLOCK] == b[k];
  }

  /** The root binds the data: two different nonempty files of one size with the
      same root exhibit a collision. */
  lemma MerkleHashBinds(sha: Sha, a: ByteString, as': seq<Hash>, h: nat, b: ByteString, bs: seq<Hash>, g: nat)
    returns (x: ByteString, y: ByteString)
    requires |a| == |b| && a != b
    requires LeavesOf(sha, a, as') && |as'| == Pow2(h) && (h > 0 ==> Pow2(h - 1) < LeafCount(a))
    requires LeavesOf(sha, b, bs) && |bs| == Pow2(g) && (g > 0 ==> Pow2(g - 1) < LeafCount(b))
    requires FoldRoot(sha, as') == FoldRoot(sha, bs)
    ensures Collision(sha, x, y)
  {
    HeightUnique(h, g, LeafCount(a));
    if as' == bs {
      var i := DifferingBlock(a, b);
      x, y := Chunk(a, BLOCK, i), Chunk(b, BLOCK, i);
    } else {
      x, y := RootsCollide(sha, as', bs, h);
    }
  }

  // ---- The trees in hashes of bytes ----

  /** The tree of two leaves hashes the left one before the right one, and a larger
      tree does so for its halves. */
  lemma RootOfHalves(sha: Sha, left: seq<Hash>, right: seq<Hash>, h: nat)
    requires |left| == |right| == Pow2(h)
    ensures |left + right| == Pow2(h + 1)
    ensures FoldRoot(sha, left + right) == sha(Both(FoldRoot(sha, left), FoldRoot(sha, right)))
  {
    FoldIsTree(sha, left, h);
    FoldIsTree(sha, right, h);
    FoldIsTree(sha, left + right, h + 1);
    assert (left + right)[..Pow2(h)] == left && (left + right)[Pow2(h)..] == right;
  }

  /** `nodes` leads from the leaf upwards along the proof. */
  ghost predicate Climbs(sha: Sha, nodes: seq<Hash>, idx: int, proof: seq<Hash>) {
    && |nodes| == |proof| + 1
    && forall k :: 0 <= k < |proof| ==>
         nodes[k + 1] ==
         sha(if Odd(IndexAbove(idx, k)) == 0 then Both(nodes[k], proof[k]) else Both(proof[k], nodes[k]))
  }

  /** The check climbs from the leaf, each uncle on the right of an even node and on
      the left of an odd one, and compares what it reaches with the root. */
  lemma {:induction false} ProofClimbs(sha: Sha, leaf: Hash, idx: int, proof: seq<Hash>) returns (nodes: seq<Hash>)
    ensures Climbs(sha, nodes, idx, proof) && nodes[0] == leaf && nodes[|proof|] == ProofRoot(sha, leaf, idx, proof)
    decreases |proof|
  {
    if proof == [] {
      nodes := [leaf];
    } else {
      var up := Climb(sha, leaf, proof[0], idx);
      var above := ProofClimbs(sha, up, Half(idx), proof[1..]);
      nodes := [leaf] + above;
      forall k | 0 <= k < |proof|
        ensures nodes[k + 1] ==
                sha(if Odd(IndexAbove(idx, k)) == 0 then Both(nodes[k], proof[k]) else Both(proof[k], nodes[k]))
      {
        if k > 0 {
          assert nodes[k + 1] == above[k] && nodes[k] == above[k - 1] && proof[k] == proof[1..][k - 1];
          assert IndexAbove(idx, k) == IndexAbove(Half(idx), k - 1);
        }
      }
    }
  }

  /** Truncated halving in numbers: it drops the last bit of the magnitude. */
  lemma HalfAndOdd(idx: int)
    ensures idx == 2 * Half(idx) + Odd(idx)
    ensures idx >= 0 ==> 0 <= Odd(idx) <= 1
    ensures idx <= 0 ==> -1 <= Odd(idx) <= 0
  {
  }

  /** There is a leaf for every block that starts inside the data. */
  lemma LeafCountIs(data: ByteString, i: nat)
    ensures i < LeafCount(data) <==> i * 16384 < |data|
  {
  }
}
