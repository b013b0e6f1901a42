/** What is hashed for a file, and with which hashes, written out to the byte. */
module FileFormat {
  import opened Wrappers
  import opened Text
  import opened TextLaws
  import opened Merkle
  import opened MerkleRows
  import opened FileTree
  import opened FileStore

  /**
   * Only proof type 3 uses Blake3, with its digests of 32 bytes, and only type 1 is a folder; all
   * others hash alike.
   */
  lemma {:induction false} HashByType(hashing: Hashing, proofType: int)
    ensures proofType == 3 ==> hashing.For(proofType) == hashing.blake3
    ensures proofType != 3 ==> hashing.For(proofType) == hashing.standard
    ensures IsFolder(proofType) <==> proofType == 1
    ensures hashing.Valid() ==> hashing.For(proofType).size == if proofType == 3 then 32 else 64
  {
  }

  /** The bytes of chunk i: c of them, fewer only at the end. */
  lemma {:induction false} ChunksAreBytes(data: Bytes, c: nat, i: nat)
    requires c >= 1
    ensures |Chunks(data, c)| == (|data| + c - 1) / c
    ensures i * c + c <= |data| ==> i < |Chunks(data, c)| && Chunks(data, c)[i] == data[i * c..i * c + c]
    ensures i * c < |data| < i * c + c ==> i == |Chunks(data, c)| - 1 && Chunks(data, c)[i] == data[i * c..]
  {
    ChunkAt(data, c, i);
    ChunkAt(data, c, i + 1);
    assert (i + 1) * c == i * c + c;
  }

  /** The hashed text is the index in decimal digits, then each byte of the chunk as two lower-case hex digits. */
  lemma {:induction false} LeafTextAt(i: nat, chunk: Bytes, k: nat)
    ensures LeafText(i, chunk)[..|Dec(i)|] == Dec(i) && |LeafText(i, chunk)| == |Dec(i)| + 2 * |chunk|
    ensures k < |Dec(i)| ==> Dec(i)[|Dec(i)| - 1 - k] == "0123456789"[i / Pow(10, k) % 10]
    ensures k < |chunk| ==>
              && LeafText(i, chunk)[|Dec(i)| + 2 * k] == "0123456789abcdef"[chunk[k] / 16]
              && LeafText(i, chunk)[|Dec(i)| + 2 * k + 1] == "0123456789abcdef"[chunk[k] % 16]
  {
    DecAt(i, k);
    if k < |chunk| {
      HexAt(chunk, k);
    }
  }

  lemma {:induction false} LeafTextExample()
    ensures LeafText(12, [0xa0, 7]) == "12a007"
  {
    HexOfTwo(0xa0, 7);
    DecOfTwo(12);
    hide Hex, Dec;
  }

  /**
   * BuildTree refuses exactly empty input and chunks of no bytes; the size it returns is the number
   * of bytes, and the first slot of the exported tree is empty.
   */
  lemma {:induction false} BuildOutcome(s: Suite, data: Bytes, c: nat)
    ensures Build(s, data, c) == Err(NoLeaves) <==> data == [] || c == 0
    ensures Build(s, data, c).Ok? ==>
              var built := Build(s, data, c).value;
              built.size == |data| && IsBuilt(s, built.tree) && built.tree.nodes[0] == []
  {
    if c > 0 && data != [] {
      NewTreeIsBuilt(s, FileLeaves(s, data, c));
      FirstSlotIsEmpty(s, FileLeaves(s, data, c));
      hide IsBuilt, NewTree;
    }
  }

  lemma FirstSlotIsEmpty(s: Suite, leaves: seq<Bytes>)
    requires leaves != []
    ensures NewTree(s, leaves).value.nodes[0] == []
  {
  }

  /** Leaf i of the tree is the content hash of the leaf text of chunk i. */
  lemma {:induction false} BuiltLeaf(s: Suite, data: Bytes, c: nat, i: nat)
    requires data != [] && c > 0
    ensures var leaves := Build(s, data, c).value.tree.leaves;
            && |leaves| == (|data| + c - 1) / c
            && (i < |leaves| <==> i * c < |data|)
            && (i * c < |data| ==> i < |leaves| && leaves[i] == s.content(LeafText(i, data[i * c..Min(i * c + c, |data|)])))
  {
    ChunkAt(data, c, i);
    NewTreeIsBuilt(s, FileLeaves(s, data, c));
    hide NewTree, Chunks, IsBuilt;
  }

  /** Its root is what the padded digests of the leaves pair up to. */
  lemma {:induction false} BuiltRootByRows(s: Suite, data: Bytes, c: nat)
    requires data != [] && c > 0
    ensures var built := Build(s, data, c).value;
            var h := Height(|built.tree.leaves|);
            RowAbove(s, built.tree.leaves, Pow2(h), h) == [built.root] == [built.tree.nodes[1]]
  {
    var leaves := FileLeaves(s, data, c);
    NewTreeIsBuilt(s, leaves);
    RootByRows(s, leaves);
    hide NewTree, Chunks, IsBuilt, RowAbove, Height, Pow2, FileLeaves;
  }

  /**
   * A proof is generated exactly if the hashed text of the item is a leaf, for the first such leaf,
   * and counts as valid exactly if climbing from it ends at the tree's root.
   */
  lemma {:induction false} ProofOutcome(s: Suite, tree: MerkleTree, index: nat, item: Bytes)
    ensures var leaf, r := s.content(LeafText(index, item)), GenerateMerkleProof(s, tree, index, item);
            && (r.Some? <==> leaf in tree.leaves)
            && (r.Some? ==>
                  var (valid, proof) := r.value;
                  && proof.index < |tree.leaves| && tree.leaves[proof.index] == leaf && leaf !in tree.leaves[..proof.index]
                  && (valid <==> Climb(s, s.tree(leaf), Pow2(|proof.hashes|) + proof.index, proof.hashes) == tree.nodes[1]))
  {
    hide LeafText, Path, Climb, Width, Pow2;
    var i := FirstIndex(tree.leaves, s.content(LeafText(index, item)));
  }

  /** Its hashes are the neighbours met on the way up. */
  lemma {:induction false} ProofHashes(s: Suite, tree: MerkleTree, index: nat, item: Bytes, l: nat)
    requires GenerateMerkleProof(s, tree, index, item).Some?
    requires l < |GenerateMerkleProof(s, tree, index, item).value.1.hashes|
    ensures var proof := GenerateMerkleProof(s, tree, index, item).value.1;
            var k := (Pow2(Height(|tree.leaves|)) + proof.index) / Pow2(l);
            k >= 2 && Sibling(k) < |tree.nodes| && proof.hashes[l] == tree.nodes[Sibling(k)]
  {
    hide LeafText, Path, Climb, Verify;
    var i := FirstIndex(tree.leaves, s.content(LeafText(index, item))).value;
    PathIsNeighbours(tree, Width(|tree.leaves|) + i, l);
  }

  /** For a tree that BuildTree made the proof is always valid: NotValid is never returned. */
  lemma {:induction false} BuiltProofsAreValid(s: Suite, tree: MerkleTree, index: nat, item: Bytes)
    requires IsBuilt(s, tree)
    ensures GenerateMerkleProof(s, tree, index, item).Some? ==> GenerateMerkleProof(s, tree, index, item).value.0
  {
    if s.content(LeafText(index, item)) in tree.leaves {
      LeafIsProvable(s, tree, s.content(LeafText(index, item)));
    }
  }
}
