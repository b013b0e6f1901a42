/**
 * From a file's bytes to its Merkle tree, as BuildTree of file_system/file_system.go
 * computes it, and what the tree's root and leaves say about the bytes.
 */
module FileTree {
  import opened Wrappers
  import opened Text
  import opened Merkle

  const PROOF_TYPE_IPFS_FOLDER := 1
  const PROOF_TYPE_BLAKE3 := 3

  /** SHA-256 with SHA3-512 for every proof type but one, Blake3 twice for that one. */
  datatype Hashing = Hashing(standard: Suite, blake3: Suite) {
    ghost predicate Valid() {
      standard.Valid() && standard.size == 64 && blake3.Valid() && blake3.size == 32
    }

    function For(proofType: int): (s: Suite)
      ensures Valid() ==> s.Valid()
    {
      if proofType == PROOF_TYPE_BLAKE3 then blake3 else standard
    }
  }

  /* ---------- chunks ---------- */

  /** The pieces that consecutive reads into a buffer of c bytes return. */
  function Chunks(data: Bytes, c: nat): seq<Bytes>
    requires c >= 1
  {
    if data == [] then []
    else if |data| <= c then [data]
    else [data[..c]] + Chunks(data[c..], c)
  }

  function NumChunks(n: nat, c: nat): nat
    requires c >= 1
  {
    (n + c - 1) / c
  }

  /** Bytes [i*c, min((i+1)*c, len)). */
  function Slice(data: Bytes, c: nat, i: nat): Bytes
    requires i * c <= |data|
  {
    data[i * c..Min(i * c + c, |data|)]
  }

  lemma {:induction false} ChunkCount(data: Bytes, c: nat)
    requires c >= 1
    ensures |Chunks(data, c)| == NumChunks(|data|, c)
  {
    NumChunksStep(|data|, c);
    if |data| > c {
      ChunkCount(data[c..], c);
    }
  }

  lemma {:induction false} ChunkSlice(data: Bytes, c: nat, i: nat)
    requires c >= 1 && i * c < |data|
    ensures i < |Chunks(data, c)| && Chunks(data, c)[i] == Slice(data, c, i)
  {
    if i == 0 {
      assert Slice(data, c, 0) == data[..Min(c, |data|)];
    } else {
      SliceOfTail(data, c, i);
      ChunkSlice(data[c..], c, i - 1);
    }
  }

  lemma SliceOfTail(data: Bytes, c: nat, i: nat)
    requires c >= 1 && i >= 1 && i * c < |data|
    ensures c < |data| && (i - 1) * c < |data[c..]|
    ensures Slice(data[c..], c, i - 1) == Slice(data, c, i)
  {
    MulMonotone(1, i, c);
    var at := (i - 1) * c;
    assert at == i * c - c;
    assert data[c..][at..Min(at + c, |data| - c)] == data[at + c..Min(at + c + c, |data|)];
  }

  lemma MulMonotone(a: nat, b: nat, c: nat)
    requires a <= b
    ensures a * c <= b * c
  {
    assert (b - a) * c >= 0;
  }

  lemma {:induction false} NumChunksBound(n: nat, c: nat, i: nat)
    requires c >= 1
    ensures i < NumChunks(n, c) <==> i * c < n
  {
    var q := NumChunks(n, c);
    assert q * c <= n + c - 1 < q * c + c;
    if i < q {
      MulMonotone(i + 1, q, c);
      assert (i + 1) * c == i * c + c;
    } else {
      MulMonotone(q, i, c);
    }
  }

  lemma {:induction false} ChunkAt(data: Bytes, c: nat, i: nat)
    requires c >= 1
    ensures |Chunks(data, c)| == NumChunks(|data|, c)
    ensures i < NumChunks(|data|, c) <==> i * c < |data|
    ensures i * c < |data| ==> Chunks(data, c)[i] == Slice(data, c, i)
  {
    ChunkCount(data, c);
    NumChunksBound(|data|, c, i);
    if i * c < |data| {
      ChunkSlice(data, c, i);
    }
  }

  lemma {:induction false} NumChunksStep(n: nat, c: nat)
    requires c >= 1
    ensures NumChunks(n, c) == if n == 0 then 0 else if n <= c then 1 else 1 + NumChunks(n - c, c)
  {
    if n == 0 {
      QuotientUnique(c - 1, c, 0, c - 1);
    } else if n <= c {
      QuotientUnique(n + c - 1, c, 1, n - 1);
    } else {
      var m := n - 1;
      QuotientUnique(n + c - 1, c, m / c + 1, m % c);
    }
  }

  lemma {:induction false} ChunksDetermineData(a: Bytes, b: Bytes, c: nat)
    requires c >= 1 && Chunks(a, c) == Chunks(b, c)
    ensures a == b
  {
    if a != [] && b != [] {
      assert Chunks(a, c)[0] == Chunks(b, c)[0];
      if |a| > c && |b| > c {
        assert Chunks(a, c)[1..] == Chunks(a[c..], c) && Chunks(b, c)[1..] == Chunks(b[c..], c);
        ChunksDetermineData(a[c..], b[c..], c);
        assert a == a[..c] + a[c..] && b == b[..c] + b[c..];
      }
    }
  }

  /* ---------- leaves ---------- */

  /** The text that is hashed into leaf i: the index in decimal, then the chunk in hex. */
  function LeafText(i: nat, chunk: Bytes): string {
    Dec(i) + Hex(chunk)
  }

  function Leaves(s: Suite, chunks: seq<Bytes>): seq<Bytes> {
    seq(|chunks|, i requires 0 <= i < |chunks| => s.content(LeafText(i, chunks[i])))
  }

  function FileLeaves(s: Suite, data: Bytes, c: nat): seq<Bytes>
    requires c >= 1
  {
    Leaves(s, Chunks(data, c))
  }

  function FileRoot(s: Suite, data: Bytes, c: nat): Bytes
    requires c >= 1
  {
    Root(s, FileLeaves(s, data, c))
  }

  /** The texts hashed for a file. */
  function LeafTexts(data: Bytes, c: nat): seq<string>
    requires c >= 1
  {
    var chunks := Chunks(data, c);
    seq(|chunks|, i requires 0 <= i < |chunks| => LeafText(i, chunks[i]))
  }

  /** Everything that BuildTree hashes for a file. */
  ghost function Hashed(s: Suite, data: Bytes, c: nat): set<Preimage>
    requires c >= 1
  {
    (set text | text in LeafTexts(data, c) :: ChunkText(text)) + TreePreimages(s, FileLeaves(s, data, c))
  }

  lemma NoTextCollision(s: Suite, preimages: set<Preimage>, a: string, b: string)
    requires !Broken(s, preimages)
    requires ChunkText(a) in preimages && ChunkText(b) in preimages
    requires s.content(a) == s.content(b)
    ensures a == b
  {
    assert !Collide(s, ChunkText(a), ChunkText(b));
  }

  lemma LeafTextHashed(s: Suite, data: Bytes, c: nat, i: nat)
    requires c >= 1 && i < |Chunks(data, c)|
    ensures ChunkText(LeafText(i, Chunks(data, c)[i])) in Hashed(s, data, c)
  {
    assert LeafTexts(data, c)[i] in LeafTexts(data, c);
  }

  lemma LeafTextInjective(i: nat, a: Bytes, b: Bytes)
    requires LeafText(i, a) == LeafText(i, b)
    ensures a == b
  {
    assert LeafText(i, a)[|Dec(i)|..] == Hex(a) && LeafText(i, b)[|Dec(i)|..] == Hex(b);
    HexInjective(a, b);
  }

  /* ---------- building and proving ---------- */

  datatype Built = Built(root: Bytes, tree: MerkleTree, size: nat)

  datatype BuildError = NoLeaves

  /** What BuildTree makes of the unread bytes; without leaves the tree library refuses. */
  function Build(s: Suite, data: Bytes, c: nat): Result<Built, BuildError> {
    if c == 0 || data == [] then Err(NoLeaves)
    else
      var leaves := FileLeaves(s, data, c);
      Ok(Built(RootOf(NewTree(s, leaves).value), NewTree(s, leaves).value, |data|))
  }

  lemma BuiltRoot(s: Suite, data: Bytes, c: nat)
    requires s.Valid() && c >= 1 && data != []
    ensures Build(s, data, c).Ok? && Build(s, data, c).value.root == FileRoot(s, data, c)
    ensures |FileRoot(s, data, c)| == s.size
  {
    HeapNodeSize(s, FileLeaves(s, data, c), Width(|FileLeaves(s, data, c)|), 1);
  }

  /** GenerateMerkleProof of proofs/proofs.go: the proof and whether it verifies. */
  function GenerateMerkleProof(s: Suite, tree: MerkleTree, index: nat, item: Bytes): Option<(bool, Proof)> {
    var leaf := s.content(LeafText(index, item));
    match GenerateProof(tree, leaf)
    case None => None
    case Some(proof) => Some((Verify(s, leaf, proof, RootOf(tree)), proof))
  }

  /** Every chunk of a built file is provable, whichever equal leaf the look-up finds first. */
  lemma {:induction false} ChunkIsProvable(s: Suite, data: Bytes, c: nat, i: nat)
    requires s.Valid() && c >= 1 && i * c < |data|
    ensures var tree := Build(s, data, c).value.tree;
            var r := GenerateMerkleProof(s, tree, i, Slice(data, c, i));
            && r.Some? && r.value.0
            && Verify(s, s.content(LeafText(i, Slice(data, c, i))), r.value.1, FileRoot(s, data, c))
  {
    ChunkAt(data, c, i);
    BuiltRoot(s, data, c);
    var leaf := s.content(LeafText(i, Slice(data, c, i)));
    assert FileLeaves(s, data, c)[i] == leaf;
    NewTreeIsBuilt(s, FileLeaves(s, data, c));
    LeafIsProvable(s, Build(s, data, c).value.tree, leaf);
  }

  /* ---------- what the root says ---------- */

  /**
   * The root determines the file: two non-empty files of any lengths with the same root are
   * equal, or building their two trees hashed a colliding pair or a preimage of the padding node.
   */
  lemma {:induction false} RootDeterminesFile(s: Suite, c: nat, a: Bytes, b: Bytes)
    requires s.Valid() && c >= 1 && a != [] && b != []
    requires FileRoot(s, a, c) == FileRoot(s, b, c)
    ensures a == b || Broken(s, Hashed(s, a, c) + Hashed(s, b, c))
  {
    var all := Hashed(s, a, c) + Hashed(s, b, c);
    if !Broken(s, all) {
      var x, y := FileLeaves(s, a, c), FileLeaves(s, b, c);
      RootDeterminesLeaves(s, x, y);
      if x != y {
        BrokenMonotone(s, TreePreimages(s, x) + TreePreimages(s, y), all);
        assert false;
      }
      var u, v := Chunks(a, c), Chunks(b, c);
      forall i | 0 <= i < |u|
        ensures u[i] == v[i]
      {
        assert x[i] == y[i];
        LeafTextHashed(s, a, c, i);
        LeafTextHashed(s, b, c, i);
        NoTextCollision(s, all, LeafText(i, u[i]), LeafText(i, v[i]));
        LeafTextInjective(i, u[i], v[i]);
      }
      assert |x| == |u| && |y| == |v|;
      ChunksDetermineData(a, b, c);
    }
  }

  /** Everything hashed while a proof for an item is verified. */
  ghost function CheckHashed(s: Suite, item: Bytes, proof: Proof): set<Preimage> {
    var text := LeafText(proof.index, item);
    {ChunkText(text)} + ProofPreimages(s, s.content(text), proof)
  }

  /**
   * A proof of any length and index that verifies for an item hashed a leaf text of the file, the
   * one that it addresses, or a colliding pair was hashed, or it is too long and passes a leaf.
   */
  lemma {:induction false} VerifiedProofCarriesText(s: Suite, data: Bytes, c: nat, item: Bytes, proof: Proof)
    requires s.Valid() && c >= 1
    requires Verify(s, s.content(LeafText(proof.index, item)), proof, FileRoot(s, data, c))
    ensures var all := Hashed(s, data, c) + CheckHashed(s, item, proof);
            || (|proof.hashes| == Height(NumChunks(|data|, c)) && Addressed(proof) < |LeafTexts(data, c)| &&
                LeafText(proof.index, item) == LeafTexts(data, c)[Addressed(proof)])
            || Broken(s, all)
            || PassesLeaf(s, FileLeaves(s, data, c), proof, all)
  {
    hide Broken, PassesLeaf;
    var text, leaves := LeafText(proof.index, item), FileLeaves(s, data, c);
    var all := Hashed(s, data, c) + CheckHashed(s, item, proof);
    ChunkCount(data, c);
    if !Broken(s, all) && !PassesLeaf(s, leaves, proof, all) {
      VerifiedProofCarriesLeaf(s, leaves, s.content(text), proof);
      LimitsMonotone(s, leaves, proof, TreePreimages(s, leaves) + ProofPreimages(s, s.content(text), proof), all);
      LeafTextHashed(s, data, c, Addressed(proof));
      NoTextCollision(s, all, text, LeafTexts(data, c)[Addressed(proof)]);
    }
  }

  lemma LimitsMonotone(s: Suite, leaves: seq<Bytes>, proof: Proof, small: set<Preimage>, large: set<Preimage>)
    requires small <= large
    ensures Broken(s, small) || PassesLeaf(s, leaves, proof, small) ==>
              Broken(s, large) || PassesLeaf(s, leaves, proof, large)
  {
  }

  /** A proof of any length for an index of the file that verifies for an item shows that the item is that chunk. */
  lemma {:induction false} VerifiedProofCarriesChunk(s: Suite, data: Bytes, c: nat, item: Bytes, proof: Proof)
    requires s.Valid() && c >= 1 && proof.index * c < |data|
    requires Verify(s, s.content(LeafText(proof.index, item)), proof, FileRoot(s, data, c))
    ensures var all := Hashed(s, data, c) + CheckHashed(s, item, proof);
            || (item == Slice(data, c, proof.index) && |proof.hashes| == Height(NumChunks(|data|, c)))
            || Broken(s, all)
            || PassesLeaf(s, FileLeaves(s, data, c), proof, all)
  {
    hide Broken, PassesLeaf, LeafText, FileRoot;
    VerifiedProofCarriesText(s, data, c, item, proof);
    ChunkAt(data, c, proof.index);
    if LeafText(proof.index, item) == LeafText(proof.index, Slice(data, c, proof.index)) {
      LeafTextInjective(proof.index, item, Slice(data, c, proof.index));
    }
  }
}
