/**
 * The Merkle tree that BuildTree exports and GenerateMerkleProof walks: a heap array
 * whose slot 0 is unused, slot 1 is the root and whose lower half holds the leaves,
 * each hashed once more and padded with zero nodes to a power of two.
 */
module Merkle {
  import opened Wrappers
  import opened Text

  /**
   * The hash pair of one proof type: `content` hashes a chunk's text, `tree` hashes leaves
   * and pairs of nodes, and `size` is the length of a tree digest. Both functions are left
   * uninterpreted; only the lengths of their results are known.
   */
  datatype Suite = Suite(content: string -> Bytes, tree: Bytes -> Bytes, size: nat) {
    ghost predicate Valid() {
      && size in {32, 64}
      && (forall text :: |content(text)| == 32)
      && (forall bytes :: |tree(bytes)| == size)
    }

    /** The node that pads the leaf row. */
    function Zero(): Bytes {
      seq(size, _ => 0)
    }
  }

  /* ---------- collisions ---------- */

  /** Something that was hashed: the text of a chunk, or the bytes of a leaf or a pair of nodes. */
  datatype Preimage = ChunkText(text: string) | NodeBytes(bytes: Bytes)

  ghost predicate Collide(s: Suite, p: Preimage, q: Preimage) {
    && p != q
    && ((p.ChunkText? && q.ChunkText? && s.content(p.text) == s.content(q.text)) ||
        (p.NodeBytes? && q.NodeBytes? && s.tree(p.bytes) == s.tree(q.bytes)))
  }

  ghost predicate HashesToZero(s: Suite, p: Preimage) {
    p.NodeBytes? && s.tree(p.bytes) == s.Zero()
  }

  /** Among these preimages two collide, or one hashes to the padding node. */
  ghost predicate Broken(s: Suite, preimages: set<Preimage>) {
    || (exists p, q | p in preimages && q in preimages :: Collide(s, p, q))
    || (exists p | p in preimages :: HashesToZero(s, p))
  }

  lemma BrokenMonotone(s: Suite, small: set<Preimage>, large: set<Preimage>)
    requires small <= large && Broken(s, small)
    ensures Broken(s, large)
  {
  }

  lemma NoNodeCollision(s: Suite, preimages: set<Preimage>, a: Bytes, b: Bytes)
    requires !Broken(s, preimages)
    requires NodeBytes(a) in preimages && NodeBytes(b) in preimages
    requires s.tree(a) == s.tree(b)
    ensures a == b
  {
    assert !Collide(s, NodeBytes(a), NodeBytes(b));
  }

  lemma NoZeroNode(s: Suite, preimages: set<Preimage>, a: Bytes)
    requires !Broken(s, preimages) && NodeBytes(a) in preimages
    ensures s.tree(a) != s.Zero()
  {
    assert !HashesToZero(s, NodeBytes(a));
  }

  /* ---------- the tree ---------- */

  function Pow2(h: nat): (w: nat)
    ensures w >= 1
  {
    if h == 0 then 1 else 2 * Pow2(h - 1)
  }

  /** ceil(log2(n)). */
  function Height(n: nat): (h: nat)
    ensures n <= Pow2(h)
    ensures h > 0 ==> Pow2(h - 1) < n
  {
    if n <= 1 then 0 else 1 + Height((n + 1) / 2)
  }

  function Width(n: nat): nat {
    Pow2(Height(n))
  }

  /** The node in heap slot k over these leaves. */
  function HeapNode(s: Suite, leaves: seq<Bytes>, w: nat, k: nat): Bytes
    requires k >= 1
    decreases 2 * w - k, 1
  {
    if k >= w then
      if k - w < |leaves| then s.tree(leaves[k - w]) else s.Zero()
    else
      s.tree(Branch(s, leaves, w, k))
  }

  /** The two nodes below inner slot k, as they are hashed. */
  function Branch(s: Suite, leaves: seq<Bytes>, w: nat, k: nat): Bytes
    requires 1 <= k < w
    decreases 2 * w - k, 0
  {
    HeapNode(s, leaves, w, 2 * k) + HeapNode(s, leaves, w, 2 * k + 1)
  }

  function Root(s: Suite, leaves: seq<Bytes>): Bytes {
    HeapNode(s, leaves, Width(|leaves|), 1)
  }

  datatype TreeRecord = TreeRecord(leaves: seq<Bytes>, nodes: seq<Bytes>) {
    predicate WellFormed() {
      && leaves != []
      && |nodes| == 2 * Width(|leaves|)
    }
  }

  type MerkleTree = t: TreeRecord | t.WellFormed() witness TreeRecord([[]], [[], []])

  /** merkletree.NewTree without salt and without sorting: no leaves is an error. */
  function NewTree(s: Suite, leaves: seq<Bytes>): (r: Option<MerkleTree>)
    ensures r.Some? <==> leaves != []
  {
    if leaves == [] then None
    else
      var w := Width(|leaves|);
      var nodes := seq(2 * w, k requires 0 <= k < 2 * w => if k == 0 then [] else HeapNode(s, leaves, w, k));
      Some(TreeRecord(leaves, nodes))
  }

  function RootOf(t: MerkleTree): Bytes {
    t.nodes[1]
  }

  /* ---------- proofs ---------- */

  datatype Proof = Proof(hashes: seq<Bytes>, index: nat)

  function Sibling(k: nat): nat {
    if k % 2 == 0 then k + 1 else k - 1
  }

  /** The siblings met on the way from heap slot k up to the root. */
  function Path(t: MerkleTree, k: nat): seq<Bytes>
    requires k < |t.nodes|
  {
    if k <= 1 then [] else [t.nodes[Sibling(k)]] + Path(t, k / 2)
  }

  function FirstIndex(leaves: seq<Bytes>, leaf: Bytes): (i: Option<nat>)
    ensures i.Some? <==> leaf in leaves
    ensures i.Some? ==> i.value < |leaves| && leaves[i.value] == leaf && leaf !in leaves[..i.value]
  {
    if leaves == [] then None
    else if leaves[0] == leaf then Some(0)
    else
      match FirstIndex(leaves[1..], leaf)
      case None => None
      case Some(i) =>
        assert leaves[..i + 1] == [leaves[0]] + leaves[1..][..i];
        Some(i + 1)
  }

  lemma {:induction false} FirstIndexIsLeast(leaves: seq<Bytes>, leaf: Bytes, i: nat)
    requires i < |leaves| && leaves[i] == leaf
    ensures FirstIndex(leaves, leaf).Some? && FirstIndex(leaves, leaf).value <= i
  {
    if leaves[0] != leaf {
      FirstIndexIsLeast(leaves[1..], leaf, i - 1);
    }
  }

  /** GenerateProof looks the leaf up by value and takes the first equal one. */
  function GenerateProof(t: MerkleTree, leaf: Bytes): Option<Proof> {
    match FirstIndex(t.leaves, leaf)
    case None => None
    case Some(i) => Some(Proof(Path(t, Width(|t.leaves|) + i), i))
  }

  function ClimbText(hash: Bytes, k: nat, sibling: Bytes): Bytes {
    if k % 2 == 0 then hash + sibling else sibling + hash
  }

  function Climb(s: Suite, hash: Bytes, k: nat, hashes: seq<Bytes>): Bytes
    decreases |hashes|
  {
    if hashes == [] then hash
    else
      Climb(s, s.tree(ClimbText(hash, k, hashes[0])), k / 2, hashes[1..])
  }

  /** VerifyProofUsing without salt against the single pollard `root`. */
  predicate Verify(s: Suite, leaf: Bytes, proof: Proof, root: Bytes) {
    Climb(s, s.tree(leaf), proof.index + Pow2(|proof.hashes|), proof.hashes) == root
  }

  /* ---------- every leaf is provable ---------- */

  /** Every used slot holds the heap node over the tree's own leaves. */
  ghost predicate IsBuilt(s: Suite, t: MerkleTree) {
    forall k | 1 <= k < |t.nodes| :: t.nodes[k] == HeapNode(s, t.leaves, Width(|t.leaves|), k)
  }

  lemma NewTreeIsBuilt(s: Suite, leaves: seq<Bytes>)
    requires leaves != []
    ensures NewTree(s, leaves).Some? && NewTree(s, leaves).value.leaves == leaves && IsBuilt(s, NewTree(s, leaves).value)
    ensures RootOf(NewTree(s, leaves).value) == Root(s, leaves)
  {
  }

  lemma NodeFromChildren(s: Suite, t: MerkleTree, k: nat)
    requires IsBuilt(s, t) && 1 <= k && 2 * k < |t.nodes|
    ensures t.nodes[k] == s.tree(t.nodes[2 * k] + t.nodes[2 * k + 1])
  {
    var w := Width(|t.leaves|);
    assert Branch(s, t.leaves, w, k) == HeapNode(s, t.leaves, w, 2 * k) + HeapNode(s, t.leaves, w, 2 * k + 1);
  }

  lemma ClimbUnfolds(s: Suite, hash: Bytes, k: nat, sibling: Bytes, hashes: seq<Bytes>)
    ensures Climb(s, hash, k, [sibling] + hashes) == Climb(s, s.tree(ClimbText(hash, k, sibling)), k / 2, hashes)
  {
    assert ([sibling] + hashes)[1..] == hashes;
  }

  /** Hashing a node with its sibling gives their parent. */
  lemma ParentHash(s: Suite, t: MerkleTree, k: nat)
    requires IsBuilt(s, t) && 2 <= k < |t.nodes|
    ensures Sibling(k) < |t.nodes|
    ensures t.nodes[k / 2] == s.tree(ClimbText(t.nodes[k], k, t.nodes[Sibling(k)]))
  {
    var p := k / 2;
    assert |t.nodes| == 2 * Width(|t.leaves|);
    NodeFromChildren(s, t, p);
    hide IsBuilt;
    assert k == 2 * p || k == 2 * p + 1;
  }

  lemma {:induction false} ClimbOneStep(s: Suite, t: MerkleTree, k: nat)
    requires IsBuilt(s, t) && 2 <= k < |t.nodes|
    ensures Climb(s, t.nodes[k], k, Path(t, k)) == Climb(s, t.nodes[k / 2], k / 2, Path(t, k / 2))
    ensures |Path(t, k)| == 1 + |Path(t, k / 2)|
  {
    ParentHash(s, t, k);
    var rest := Path(t, k / 2);
    assert Path(t, k) == [t.nodes[Sibling(k)]] + rest;
    hide IsBuilt, Path, Climb, ClimbText;
    ClimbUnfolds(s, t.nodes[k], k, t.nodes[Sibling(k)], rest);
  }

  lemma {:induction false} ClimbFollowsPath(s: Suite, t: MerkleTree, h: nat, k: nat)
    requires IsBuilt(s, t)
    requires Pow2(h) <= k < 2 * Pow2(h) && k < |t.nodes|
    ensures |Path(t, k)| == h
    ensures Climb(s, t.nodes[k], k, Path(t, k)) == RootOf(t)
  {
    if h > 0 {
      ClimbOneStep(s, t, k);
      ClimbFollowsPath(s, t, h - 1, k / 2);
    }
  }

  /**
   * Looking a leaf of a built tree up by value always gives a proof that verifies
   * against the root, also when an equal leaf stands earlier in the tree.
   */
  lemma {:induction false} LeafIsProvable(s: Suite, t: MerkleTree, leaf: Bytes)
    requires IsBuilt(s, t) && leaf in t.leaves
    ensures GenerateProof(t, leaf).Some?
    ensures Verify(s, leaf, GenerateProof(t, leaf).value, RootOf(t))
    ensures |GenerateProof(t, leaf).value.hashes| == Height(|t.leaves|)
  {
    var i := FirstIndex(t.leaves, leaf).value;
    var k := Width(|t.leaves|) + i;
    ClimbFollowsPath(s, t, Height(|t.leaves|), k);
    assert t.nodes[k] == s.tree(leaf);
  }

  /* ---------- the root determines the leaves ---------- */

  /** Everything hashed with the tree hash while building the tree over these leaves. */
  ghost function TreePreimages(s: Suite, leaves: seq<Bytes>): set<Preimage> {
    var w := Width(|leaves|);
    (set i | 0 <= i < |leaves| :: NodeBytes(leaves[i])) +
    (set k | 1 <= k < w :: NodeBytes(Branch(s, leaves, w, k)))
  }

  lemma LeafHashed(s: Suite, leaves: seq<Bytes>, i: nat)
    requires i < |leaves|
    ensures NodeBytes(leaves[i]) in TreePreimages(s, leaves)
  {
  }

  lemma BranchHashed(s: Suite, leaves: seq<Bytes>, k: nat)
    requires 1 <= k < Width(|leaves|)
    ensures NodeBytes(Branch(s, leaves, Width(|leaves|), k)) in TreePreimages(s, leaves)
  {
  }

  lemma HeapNodeSize(s: Suite, leaves: seq<Bytes>, w: nat, k: nat)
    requires s.Valid() && k >= 1
    ensures |HeapNode(s, leaves, w, k)| == s.size
  {
  }

  /** Equal roots have equal nodes in every slot that both heaps reach from the root. */
  lemma {:induction false} NodesAgree(s: Suite, a: seq<Bytes>, b: seq<Bytes>, k: nat)
    requires s.Valid() && Root(s, a) == Root(s, b)
    requires k >= 1 && k < 2 * Width(|a|) && k < 2 * Width(|b|)
    requires !Broken(s, TreePreimages(s, a) + TreePreimages(s, b))
    ensures HeapNode(s, a, Width(|a|), k) == HeapNode(s, b, Width(|b|), k)
  {
    if k > 1 {
      hide Broken, TreePreimages, HeapNode;
      var u, v, p := Width(|a|), Width(|b|), k / 2;
      NodesAgree(s, a, b, p);
      BranchHashed(s, a, p);
      BranchHashed(s, b, p);
      InnerNode(s, a, u, p);
      InnerNode(s, b, v, p);
      NoNodeCollision(s, TreePreimages(s, a) + TreePreimages(s, b), Branch(s, a, u, p), Branch(s, b, v, p));
      HeapNodeSize(s, a, u, 2 * p);
      HeapNodeSize(s, b, v, 2 * p);
      SplitEqual(HeapNode(s, a, u, 2 * p), HeapNode(s, a, u, 2 * p + 1),
                 HeapNode(s, b, v, 2 * p), HeapNode(s, b, v, 2 * p + 1));
      assert k == 2 * p || k == 2 * p + 1;
    }
  }

  lemma InnerNode(s: Suite, leaves: seq<Bytes>, w: nat, k: nat)
    requires 1 <= k < w
    ensures HeapNode(s, leaves, w, k) == s.tree(Branch(s, leaves, w, k))
  {
  }

  lemma SplitEqual(x: Bytes, x': Bytes, y: Bytes, y': Bytes)
    requires (|x| == |y| || |x'| == |y'|) && x + x' == y + y'
    ensures x == y && x' == y'
  {
    assert |x| + |x'| == |x + x'| == |y| + |y'|;
    assert x == (x + x')[..|x|] && x' == (x + x')[|x|..];
    assert y == (y + y')[..|y|] && y' == (y + y')[|y|..];
  }

  /** A leaf row is never as high as an inner row: their preimages differ in length. */
  lemma SameWidth(s: Suite, a: seq<Bytes>, b: seq<Bytes>)
    requires s.Valid() && a != [] && Root(s, a) == Root(s, b)
    requires forall i | 0 <= i < |a| :: |a[i]| == 32
    requires !Broken(s, TreePreimages(s, a) + TreePreimages(s, b))
    ensures Width(|a|) >= Width(|b|)
  {
    var u, v := Width(|a|), Width(|b|);
    if u < v {
      NodesAgree(s, a, b, u);
      HeapNodeSize(s, b, v, 2 * u);
      HeapNodeSize(s, b, v, 2 * u + 1);
      LeafHashed(s, a, 0);
      BranchHashed(s, b, u);
      NoNodeCollision(s, TreePreimages(s, a) + TreePreimages(s, b), a[0], Branch(s, b, v, u));
      assert false;
    }
  }

  /** Every leaf of the one tree is the same leaf of the other. */
  lemma LeavesIncluded(s: Suite, a: seq<Bytes>, b: seq<Bytes>)
    requires s.Valid() && Root(s, a) == Root(s, b) && Width(|a|) == Width(|b|)
    requires !Broken(s, TreePreimages(s, a) + TreePreimages(s, b))
    ensures a <= b
  {
    var w := Width(|a|);
    forall i | 0 <= i < |a|
      ensures i < |b| && a[i] == b[i]
    {
      NodesAgree(s, a, b, w + i);
      LeafHashed(s, a, i);
      NoZeroNode(s, TreePreimages(s, a) + TreePreimages(s, b), a[i]);
      assert i < |b|;
      LeafHashed(s, b, i);
      NoNodeCollision(s, TreePreimages(s, a) + TreePreimages(s, b), a[i], b[i]);
    }
    if a != [] {
      var last := a[|a| - 1];
      assert |a| - 1 < |b|;
    }
  }

  /**
   * Two leaf lists with the same root are equal, or building the two trees hashed a
   * colliding pair or a preimage of the padding node.
   */
  lemma {:induction false} RootDeterminesLeaves(s: Suite, a: seq<Bytes>, b: seq<Bytes>)
    requires s.Valid() && a != [] && b != [] && Root(s, a) == Root(s, b)
    requires forall i | 0 <= i < |a| :: |a[i]| == 32
    requires forall i | 0 <= i < |b| :: |b[i]| == 32
    ensures a == b || Broken(s, TreePreimages(s, a) + TreePreimages(s, b))
  {
    var all := TreePreimages(s, a) + TreePreimages(s, b);
    if !Broken(s, all) {
      assert all == TreePreimages(s, b) + TreePreimages(s, a);
      SameWidth(s, a, b);
      SameWidth(s, b, a);
      LeavesIncluded(s, a, b);
      LeavesIncluded(s, b, a);
    }
  }

  /* ---------- a verified proof carries the leaf ---------- */

  /** Everything hashed above `hash` while verifying a proof. */
  ghost function ClimbPreimages(s: Suite, hash: Bytes, k: nat, hashes: seq<Bytes>): set<Preimage>
    decreases |hashes|
  {
    if hashes == [] then {}
    else
      var text := ClimbText(hash, k, hashes[0]);
      {NodeBytes(text)} + ClimbPreimages(s, s.tree(text), k / 2, hashes[1..])
  }

  /** The heap slot that a climb of h levels starts from: only the last h bits of k choose a side. */
  function Slot(k: nat, h: nat): (slot: nat)
    ensures Pow2(h) <= slot < 2 * Pow2(h)
    ensures Pow2(h) <= k < 2 * Pow2(h) ==> slot == k
  {
    if h == 0 then 1 else 2 * Slot(k / 2, h - 1) + k % 2
  }

  /** The leaf that a proof speaks of: only as many bits of its index count as it has hashes. */
  function Addressed(proof: Proof): (i: nat)
    ensures proof.index < Pow2(|proof.hashes|) ==> i == proof.index
  {
    Slot(proof.index + Pow2(|proof.hashes|), |proof.hashes|) - Pow2(|proof.hashes|)
  }

  lemma {:induction false} Pow2Monotone(a: nat, b: nat)
    requires a <= b
    ensures Pow2(a) <= Pow2(b)
  {
    if a < b {
      Pow2Monotone(a, b - 1);
    }
  }

  /** A climb that ends at the root, no longer than the tree is high, started from the node of its slot. */
  lemma {:induction false} ClimbStartsAtNode(s: Suite, leaves: seq<Bytes>, hash: Bytes, k: nat, hashes: seq<Bytes>,
                                             all: set<Preimage>)
    requires s.Valid() && |hash| == s.size && |hashes| <= Height(|leaves|)
    requires Climb(s, hash, k, hashes) == Root(s, leaves)
    requires TreePreimages(s, leaves) <= all && ClimbPreimages(s, hash, k, hashes) <= all
    requires !Broken(s, all)
    ensures hash == HeapNode(s, leaves, Width(|leaves|), Slot(k, |hashes|))
    decreases |hashes|
  {
    if hashes != [] {
      hide Broken, TreePreimages, HeapNode, ClimbText;
      var text := ClimbText(hash, k, hashes[0]);
      ClimbStartsAtNode(s, leaves, s.tree(text), k / 2, hashes[1..], all);
      hide Climb, ClimbPreimages;
      Pow2Monotone(|hashes|, Height(|leaves|));
      NodeBelow(s, leaves, hash, k, hashes[0], Slot(k / 2, |hashes| - 1), all);
    }
  }

  lemma NodeBelow(s: Suite, leaves: seq<Bytes>, hash: Bytes, k: nat, sibling: Bytes, p: nat, all: set<Preimage>)
    requires s.Valid() && |hash| == s.size && 1 <= p < Width(|leaves|)
    requires TreePreimages(s, leaves) <= all && NodeBytes(ClimbText(hash, k, sibling)) in all && !Broken(s, all)
    requires s.tree(ClimbText(hash, k, sibling)) == HeapNode(s, leaves, Width(|leaves|), p)
    ensures hash == HeapNode(s, leaves, Width(|leaves|), 2 * p + k % 2)
  {
    hide Broken, TreePreimages, HeapNode, Width;
    var w := Width(|leaves|);
    BranchHashed(s, leaves, p);
    InnerNode(s, leaves, w, p);
    NoNodeCollision(s, all, ClimbText(hash, k, sibling), Branch(s, leaves, w, p));
    SideOfBranch(s, leaves, w, 2 * p + k % 2, hash, sibling);
  }

  /** The half of a branch that is a digest long and stands at slot k is the node of slot k. */
  lemma SideOfBranch(s: Suite, leaves: seq<Bytes>, w: nat, k: nat, hash: Bytes, sibling: Bytes)
    requires s.Valid() && |hash| == s.size && 2 <= k < 2 * w
    requires ClimbText(hash, k, sibling) == Branch(s, leaves, w, k / 2)
    ensures hash == HeapNode(s, leaves, w, k)
  {
    var p := k / 2;
    HeapNodeSize(s, leaves, w, 2 * p);
    HeapNodeSize(s, leaves, w, 2 * p + 1);
    hide HeapNode;
    var left, right := HeapNode(s, leaves, w, 2 * p), HeapNode(s, leaves, w, 2 * p + 1);
    if k == 2 * p {
      SplitEqual(hash, sibling, left, right);
    } else {
      assert k == 2 * p + 1;
      SplitEqual(sibling, hash, left, right);
    }
  }

  /** Everything hashed while a proof is verified. */
  ghost function ProofPreimages(s: Suite, leaf: Bytes, proof: Proof): set<Preimage> {
    {NodeBytes(leaf)} +
    ClimbPreimages(s, s.tree(leaf), proof.index + Pow2(|proof.hashes|), proof.hashes)
  }

  /** Something hashed with the tree hash gave one of the leaves. */
  ghost predicate DigestIsLeaf(s: Suite, leaves: seq<Bytes>, preimages: set<Preimage>) {
    exists p | p in preimages :: p.NodeBytes? && s.tree(p.bytes) in leaves
  }

  ghost predicate DigestsAsLeaves(leaves: seq<Bytes>) {
    forall i | 0 <= i < |leaves| :: |leaves[i]| == 32
  }

  /** The digest that a climb of the tree's height starts from is that of a leaf, of the one at its slot. */
  lemma {:induction false} ClimbFromLeaf(s: Suite, leaves: seq<Bytes>, bytes: Bytes, k: nat, hashes: seq<Bytes>,
                                         all: set<Preimage>) returns (j: nat)
    requires s.Valid() && |hashes| == Height(|leaves|)
    requires Climb(s, s.tree(bytes), k, hashes) == Root(s, leaves)
    requires TreePreimages(s, leaves) <= all && ClimbPreimages(s, s.tree(bytes), k, hashes) <= all
    requires NodeBytes(bytes) in all && !Broken(s, all)
    ensures j == Slot(k, |hashes|) - Width(|leaves|) && j < |leaves| && bytes == leaves[j]
  {
    hide Broken, TreePreimages, ClimbPreimages, Climb;
    var w := Width(|leaves|);
    j := Slot(k, |hashes|) - w;
    ClimbStartsAtNode(s, leaves, s.tree(bytes), k, hashes, all);
    NoZeroNode(s, all, bytes);
    LeafHashed(s, leaves, j);
    NoNodeCollision(s, all, bytes, leaves[j]);
  }

  /** A climb that is too short would have hashed a leaf to the digest of a pair of nodes. */
  lemma {:induction false} ShortClimb(s: Suite, leaves: seq<Bytes>, leaf: Bytes, k: nat, hashes: seq<Bytes>,
                                      all: set<Preimage>)
    requires s.Valid() && |leaf| == 32 && |hashes| < Height(|leaves|)
    requires Climb(s, s.tree(leaf), k, hashes) == Root(s, leaves)
    requires TreePreimages(s, leaves) <= all && ClimbPreimages(s, s.tree(leaf), k, hashes) <= all
    requires NodeBytes(leaf) in all
    ensures Broken(s, all)
  {
    if !Broken(s, all) {
      hide Broken, TreePreimages, ClimbPreimages, Climb, HeapNode;
      var w, p := Width(|leaves|), Slot(k, |hashes|);
      ClimbStartsAtNode(s, leaves, s.tree(leaf), k, hashes, all);
      Pow2Monotone(|hashes| + 1, Height(|leaves|));
      BranchHashed(s, leaves, p);
      InnerNode(s, leaves, w, p);
      HeapNodeSize(s, leaves, w, 2 * p);
      HeapNodeSize(s, leaves, w, 2 * p + 1);
      NoNodeCollision(s, all, leaf, Branch(s, leaves, w, p));
      assert false;
    }
  }

  /** A climb that is too long went through a leaf, as a digest that has an empty sibling. */
  lemma {:induction false} LongClimb(s: Suite, leaves: seq<Bytes>, bytes: Bytes, k: nat, hashes: seq<Bytes>,
                                     all: set<Preimage>)
    requires s.Valid() && DigestsAsLeaves(leaves) && |hashes| > Height(|leaves|)
    requires Climb(s, s.tree(bytes), k, hashes) == Root(s, leaves)
    requires TreePreimages(s, leaves) <= all && ClimbPreimages(s, s.tree(bytes), k, hashes) <= all
    requires NodeBytes(bytes) in all && !Broken(s, all)
    ensures s.size == 32 && [] in hashes && DigestIsLeaf(s, leaves, all)
    decreases |hashes|
  {
    hide Broken, TreePreimages;
    var text := ClimbText(s.tree(bytes), k, hashes[0]);
    if |hashes| == Height(|leaves|) + 1 {
      var j := ClimbFromLeaf(s, leaves, text, k / 2, hashes[1..], all);
      assert hashes[0] == [] && s.tree(bytes) == leaves[j];
    } else {
      LongClimb(s, leaves, text, k / 2, hashes[1..], all);
    }
  }

  ghost predicate CarriesLeaf(leaves: seq<Bytes>, leaf: Bytes, proof: Proof) {
    |proof.hashes| == Height(|leaves|) && Addressed(proof) < |leaves| && leaf == leaves[Addressed(proof)]
  }

  /** The proof is too long, digests are as short as leaves, one sibling is empty, and a digest met is a leaf. */
  ghost predicate PassesLeaf(s: Suite, leaves: seq<Bytes>, proof: Proof, preimages: set<Preimage>) {
    |proof.hashes| > Height(|leaves|) && s.size == 32 && [] in proof.hashes && DigestIsLeaf(s, leaves, preimages)
  }

  /**
   * A proof that verifies against the root, whatever its length and index and wherever it comes
   * from, is as long as the tree is high and carries the leaf that it addresses, or a colliding pair
   * was hashed, or the proof is too long and passes a leaf.
   */
  lemma VerifiedProofCarriesLeaf(s: Suite, leaves: seq<Bytes>, leaf: Bytes, proof: Proof)
    requires s.Valid() && DigestsAsLeaves(leaves) && |leaf| == 32
    requires Verify(s, leaf, proof, Root(s, leaves))
    ensures var all := TreePreimages(s, leaves) + ProofPreimages(s, leaf, proof);
            CarriesLeaf(leaves, leaf, proof) || Broken(s, all) || PassesLeaf(s, leaves, proof, all)
  {
    hide Broken, ClimbPreimages, TreePreimages, Climb, HeapNode, CarriesLeaf, PassesLeaf, Pow2;
    var all := TreePreimages(s, leaves) + ProofPreimages(s, leaf, proof);
    if !Broken(s, all) {
      VerifiedWithin(s, leaves, leaf, proof, all);
    }
  }

  lemma VerifiedWithin(s: Suite, leaves: seq<Bytes>, leaf: Bytes, proof: Proof, all: set<Preimage>)
    requires s.Valid() && DigestsAsLeaves(leaves) && |leaf| == 32
    requires Climb(s, s.tree(leaf), proof.index + Pow2(|proof.hashes|), proof.hashes) == Root(s, leaves)
    requires TreePreimages(s, leaves) <= all && NodeBytes(leaf) in all && !Broken(s, all)
    requires ClimbPreimages(s, s.tree(leaf), proof.index + Pow2(|proof.hashes|), proof.hashes) <= all
    ensures CarriesLeaf(leaves, leaf, proof) || PassesLeaf(s, leaves, proof, all)
  {
    hide Broken, ClimbPreimages, TreePreimages, Climb, HeapNode, DigestIsLeaf, Slot, Height, Pow2;
    var k, hashes := proof.index + Pow2(|proof.hashes|), proof.hashes;
    if |hashes| < Height(|leaves|) {
      ShortClimb(s, leaves, leaf, k, hashes, all);
    } else if |hashes| == Height(|leaves|) {
      var j := ClimbFromLeaf(s, leaves, leaf, k, hashes, all);
    } else {
      LongClimb(s, leaves, leaf, k, hashes, all);
    }
  }
}
