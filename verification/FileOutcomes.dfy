/** How each operation of the file system ends, case by case, and what it leaves. */
module FileOutcomes {
  import opened Wrappers
  import opened Text
  import opened Keys
  import opened Merkle
  import opened FileTree
  import opened Dag
  import opened FileStore

  /* ---------- writing ---------- */

  /**
   * The tree is built over the bytes from the reader's position on, in chunks of c with the hashes
   * of the proof type; then its root is compared with the promised merkle; then the peer is asked.
   */
  lemma {:induction false} WriteEnds(st: Store, hashing: Hashing, data: Bytes, from: nat, contract: Contract, c: nat,
                                     proofType: int, reply: AddReply)
    requires hashing.Valid() && from <= |data|
    ensures var (after, r) := WriteFile(st, hashing, data, from, contract, c, proofType, reply);
            && (r == Err(CannotBuildTree) <==> from == |data| || c == 0)
            && (r == Err(MerkleMismatch) <==>
                  from < |data| && c > 0 && FileRoot(hashing.For(proofType), data[from..], c) != contract.merkle)
            && (r == Err(CannotAdd) <==>
                  && from < |data| && c > 0 && FileRoot(hashing.For(proofType), data[from..], c) == contract.merkle
                  && reply == NotAdded)
            && (r.Err? ==> after == st)
            && (r.Ok? ==> r.value == Written(|data| - from, reply.root))
  {
    var s, unread := hashing.For(proofType), data[from..];
    if unread != [] && c > 0 {
      BuiltRoot(s, unread, c);
      if Hex(contract.merkle) == Hex(FileRoot(s, unread, c)) {
        HexInjective(contract.merkle, FileRoot(s, unread, c));
      }
    }
    hide FileRoot, FileLeaves, NewTree, Hex, TreeKey, CidKey;
  }

  /**
   * A write that succeeds sets its two entries; the peer has stored all the reader's bytes, as a file
   * or a folder node.
   */
  lemma {:induction false} WriteLeaves(st: Store, hashing: Hashing, data: Bytes, from: nat, contract: Contract, c: nat,
                                       proofType: int, reply: AddReply)
    requires from <= |data| && WriteFile(st, hashing, data, from, contract, c, proofType, reply).1.Ok?
    ensures reply.Added? && Build(hashing.For(proofType), data[from..], c).Ok?
    ensures var after := WriteFile(st, hashing, data, from, contract, c, proofType, reply).0;
            var tree := Build(hashing.For(proofType), data[from..], c).value.tree;
            && after.db == st.db[TreeKey(contract) := TreeValue(tree)]
                                [CidKey(contract.merkle) := CidValue(Some(reply.root))]
            && after.blocks == st.blocks + reply.blocks
            && after.contents == (if proofType == 1 then st.contents
                                  else st.contents[reply.root := FileNode(data, reply.ways)])
            && after.nodes == (if reply.json == None then st.nodes else st.nodes[reply.root := reply.json.value])
  {
    hide Build, Hex, TreeKey, CidKey;
  }

  /* ---------- reading ---------- */

  /** The entries are looked up in this order. */
  lemma {:induction false} ReadFails(st: Store, contract: Contract, i: nat, c: nat, proofType: int)
    ensures var r, tk, ck := FileTreeByChunk(st, contract, i, c, proofType), TreeKey(contract), CidKey(contract.merkle);
            && (r == Err(NoTree) <==> tk !in st.db)
            && (r == Err(BadTree) <==> tk in st.db && !st.db[tk].TreeValue?)
            && (r == Err(NoCid) <==> tk in st.db && st.db[tk].TreeValue? && ck !in st.db)
            && (r == Err(BadCid) <==>
                  tk in st.db && st.db[tk].TreeValue? && ck in st.db && forall cid :: st.db[ck] != CidValue(Some(cid)))
  {
    hide TreeKey, CidKey, ChunkWays;
  }

  /**
   * With both entries a folder read gives the root node's JSON whatever the index, and a file read the
   * bytes of chunk i.
   */
  lemma {:induction false} ReadGives(st: Store, contract: Contract, i: nat, c: nat, proofType: int,
                                     tree: MerkleTree, cid: Cid)
    requires TreeKey(contract) in st.db && st.db[TreeKey(contract)] == TreeValue(tree)
    requires CidKey(contract.merkle) in st.db && st.db[CidKey(contract.merkle)] == CidValue(Some(cid))
    ensures proofType == 1 ==>
              FileTreeByChunk(st, contract, i, c, proofType) ==
              if cid !in st.blocks then Err(NoChunk)
              else if cid !in st.nodes then Err(NotProtobuf)
              else Ok((tree, st.nodes[cid]))
    ensures proofType != 1 && (cid !in st.contents || i * c >= |st.contents[cid].data|) ==>
              FileTreeByChunk(st, contract, i, c, proofType) == Err(NoChunk)
    ensures proofType != 1 && cid in st.contents && i * c < |st.contents[cid].data| ==>
              var file := st.contents[cid];
              FileTreeByChunk(st, contract, i, c, proofType) ==
              if forall j | i * c <= j < i * c + c && j < |file.ways| :: file.ways[j] <= st.blocks.Keys
              then Ok((tree, file.data[i * c..Min(i * c + c, |file.data|)])) else Err(NoChunk)
  {
    hide TreeKey, CidKey, ChunkWays;
    if cid in st.contents {
      WaysStored(st.contents[cid], i, c, st.blocks.Keys);
    }
  }

  lemma WaysStored(file: FileNode, i: nat, c: nat, stored: set<Cid>)
    ensures ChunkWays(file, i, c) <= stored <==>
            forall j | i * c <= j < i * c + c && j < |file.ways| :: file.ways[j] <= stored
  {
    var from := i * c;
    if ChunkWays(file, i, c) <= stored {
      forall j, b | from <= j < from + c && j < |file.ways| && b in file.ways[j]
        ensures b in stored
      {
        assert b in ChunkWays(file, i, c);
      }
    }
  }

  /** A failed read is reported as such; else the item must be a leaf, and its proof must verify. */
  lemma {:induction false} ProofEnds(st: Store, hashing: Hashing, contract: Contract, i: nat, c: nat, proofType: int)
    ensures var r, read := GenProof(st, hashing, contract, i, c, proofType), FileTreeByChunk(st, contract, i, c, proofType);
            && (read.Err? <==> r.Err? && r.error.CannotRead?)
            && (read.Err? ==> r == Err(CannotRead(read.error)))
            && (read.Ok? ==>
                  var (tree, chunk) := read.value;
                  var leaf := hashing.For(proofType).content(LeafText(i, chunk));
                  && (r == Err(LeafNotFound) <==> leaf !in tree.leaves)
                  && (r.Ok? ==> r.value.1 == chunk && Verify(hashing.For(proofType), leaf, r.value.0, tree.nodes[1]))
                  && (r == Err(NotValid) ==> !IsBuilt(hashing.For(proofType), tree)))
  {
    hide FileTreeByChunk, LeafText, Verify, IsBuilt, Path;
    var read := FileTreeByChunk(st, contract, i, c, proofType);
    if read.Ok? {
      var (tree, chunk) := read.value;
      var s := hashing.For(proofType);
      if s.content(LeafText(i, chunk)) in tree.leaves && IsBuilt(s, tree) {
        LeafIsProvable(s, tree, s.content(LeafText(i, chunk)));
      }
    }
  }

  /* ---------- the report ---------- */

  /** Everything that the root reaches is stored. */
  ghost predicate WholeDag(blocks: Blocks, root: Cid) {
    forall d | Reaches(blocks, root, d) :: d in blocks
  }

  /** A block is unused exactly if it is stored and no recorded root whose whole DAG is stored reaches it. */
  lemma {:induction false} UnusedIs(st: Store, c: Cid)
    ensures c in Unused(st.blocks, RootCids(st.db)) <==>
            && c in st.blocks
            && forall k | k in st.db && "cid/" <= k && st.db[k].CidValue? && st.db[k].cid.Some? &&
                          WholeDag(st.blocks, st.db[k].cid.value) :: !Reaches(st.blocks, st.db[k].cid.value, c)
  {
    hide Reaches;
    forall r
      ensures r in RootCids(st.db) <==> exists k :: k in st.db && "cid/" <= k && st.db[k] == CidValue(Some(r))
    {
    }
    if c in Unused(st.blocks, RootCids(st.db)) {
      forall k | k in st.db && "cid/" <= k && st.db[k].CidValue? && st.db[k].cid.Some? && WholeDag(st.blocks, st.db[k].cid.value)
        ensures !Reaches(st.blocks, st.db[k].cid.value, c)
      {
        assert st.db[k].cid.value in RootCids(st.db);
      }
    }
  }

  /* ---------- deleting ---------- */

  /** The raw prefix has the merkle's bytes as its characters. */
  lemma {:induction false} RawIsBytes(b: Bytes, i: nat)
    requires i < |b|
    ensures |Raw(b)| == |b| && Raw(b)[i] as int == b[i]
  {
  }

  /** The four ends of a delete, for any scan; DeleteFile scans for the raw merkle. */
  lemma {:induction false} DeleteEnds(st: Store, scan: string, contract: Contract)
    ensures var r, ck := RemoveContract(st, scan, contract).1, CidKey(contract.merkle);
            var hit := exists k :: k in st.db && k != TreeKey(contract) && |scan| <= |k| && k[..|scan|] == scan;
            var decodes := ck in st.db && st.db[ck].CidValue? && st.db[ck].cid.Some?;
            && (r == Kept <==> hit)
            && (r == CidNotDecoded <==> !hit && !decodes)
            && (r == Removed <==>
                  !hit && decodes && forall d | Reaches(st.blocks, st.db[ck].cid.value, d) :: d in st.blocks)
            && (r == NotCollected <==>
                  !hit && decodes && exists d :: Reaches(st.blocks, st.db[ck].cid.value, d) && d !in st.blocks)
    ensures DeleteFile(st, contract) == RemoveContract(st, Raw(contract.merkle), contract)
  {
    TreeKeyIsNoCidKey(contract, contract.merkle);
    hide TreeKey, CidKey, Reaches, ReachSet, Raw;
    var rest := st.db - {TreeKey(contract)};
    assert HasPrefix(rest, scan) <==>
           exists k :: k in st.db && k != TreeKey(contract) && |scan| <= |k| && k[..|scan|] == scan by {
      if HasPrefix(rest, scan) {
        var k :| k in rest && scan <= k;
        assert k in st.db && k != TreeKey(contract) && |scan| <= |k| && k[..|scan|] == scan;
      }
      if k :| k in st.db && k != TreeKey(contract) && |scan| <= |k| && k[..|scan|] == scan {
        assert k in rest && scan <= k;
      }
    }
  }
}
