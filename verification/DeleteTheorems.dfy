/** What deleting one contract does to the blocks and to the other contracts. */
module DeleteTheorems {
  import opened Wrappers
  import opened Text
  import opened Keys
  import opened FileTree
  import opened Dag
  import opened FileStore

  /** Every contract with a tree entry has a CID entry for its merkle. */
  ghost predicate CidsPresent(st: Store) {
    forall c: Contract :: TreeKey(c) in st.db ==> CidKey(c.merkle) in st.db
  }

  ghost predicate SharesMerkle(st: Store, contract: Contract) {
    exists other: Contract :: other != contract && other.merkle == contract.merkle && TreeKey(other) in st.db
  }

  /**
   * When the last contract of a merkle is removed, its two entries are gone and no other, exactly
   * the blocks its root reached are gone, and any other root that collected still collects, and
   * then the same set, exactly if it shares no block with the removed one.
   */
  lemma {:induction false} RemovedExactly(st: Store, scan: string, contract: Contract, root: Cid)
    requires RemoveContract(st, scan, contract).1 == Removed
    ensures var after := RemoveContract(st, scan, contract).0;
            var cid := CidAt(st.db - {TreeKey(contract)}, contract.merkle);
            && after.db == st.db - {TreeKey(contract), CidKey(contract.merkle)}
            && cid.Some?
            && after.blocks == st.blocks - ReachSet(st.blocks, cid.value)
            && (Collects(st.blocks, root) ==>
                  && (Collects(after.blocks, root) <==> ReachSet(st.blocks, cid.value) !! ReachSet(st.blocks, root))
                  && (Collects(after.blocks, root) ==> ReachSet(after.blocks, root) == ReachSet(st.blocks, root)))
  {
    var cid := CidAt(st.db - {TreeKey(contract)}, contract.merkle).value;
    if Collects(st.blocks, root) {
      RemoveSparesDisjoint(st.blocks, cid, root);
    }
    assert st.db - {TreeKey(contract)} - {CidKey(contract.merkle)} == st.db - {TreeKey(contract), CidKey(contract.merkle)};
  }

  /**
   * With whatever scan: the remaining contracts stay linked exactly if the scan hit a key or no
   * other contract shares the merkle.
   */
  lemma {:induction false} StaysLinkedIff(st: Store, scan: string, contract: Contract)
    requires CidsPresent(st)
    ensures CidsPresent(RemoveContract(st, scan, contract).0) <==>
            HasPrefix(st.db - {TreeKey(contract)}, scan) || !SharesMerkle(st, contract)
  {
    var after := RemoveContract(st, scan, contract).0;
    var rest := st.db - {TreeKey(contract)};
    forall c: Contract
      ensures TreeKey(c) in rest <==> TreeKey(c) in st.db && c != contract
      ensures TreeKey(c) != CidKey(contract.merkle)
      ensures CidKey(c.merkle) in rest <==> CidKey(c.merkle) in st.db
      ensures CidKey(c.merkle) == CidKey(contract.merkle) <==> c.merkle == contract.merkle
    {
      if TreeKey(c) == TreeKey(contract) {
        TreeKeyInjective(c, contract);
      }
      TreeKeyIsNoCidKey(c, contract.merkle);
      TreeKeyIsNoCidKey(contract, c.merkle);
      if CidKey(c.merkle) == CidKey(contract.merkle) {
        CidKeyInjective(c.merkle, contract.merkle);
      }
    }
    if !HasPrefix(rest, scan) {
      assert after.db == rest - {CidKey(contract.merkle)};
      if SharesMerkle(st, contract) {
        var other: Contract :| other != contract && other.merkle == contract.merkle && TreeKey(other) in st.db;
        assert TreeKey(other) in after.db && CidKey(other.merkle) !in after.db;
      }
    }
  }

  /** The scan that the comment in removeContract describes keeps every remaining contract linked. */
  lemma {:induction false} HexScanKeepsLinks(st: Store, contract: Contract)
    requires CidsPresent(st)
    ensures CidsPresent(RemoveContract(st, MerklePrefix(contract.merkle), contract).0)
  {
    StaysLinkedIff(st, MerklePrefix(contract.merkle), contract);
    if SharesMerkle(st, contract) {
      var other: Contract :| other != contract && other.merkle == contract.merkle && TreeKey(other) in st.db;
      MerklePrefixSelects(contract.merkle, other);
      if TreeKey(other) == TreeKey(contract) {
        TreeKeyInjective(other, contract);
      }
      assert TreeKey(other) in st.db - {TreeKey(contract)};
    }
  }

  /** Only contract trees and CIDs are stored, as after any run of writes and deletes. */
  ghost predicate OnlyFileKeys(st: Store) {
    forall k | k in st.db :: TREE_PREFIX <= k || CID_PREFIX <= k
  }

  predicate StartsLikeKey(merkle: Bytes) {
    TREE_PREFIX <= Raw(merkle) || CID_PREFIX <= Raw(merkle)
  }

  /** The scan over the raw merkle finds no key of such a store unless the merkle's bytes start like a key. */
  lemma RawScanMisses(st: Store, contract: Contract)
    requires OnlyFileKeys(st) && |contract.merkle| >= 5 && !StartsLikeKey(contract.merkle)
    ensures !HasPrefix(st.db - {TreeKey(contract)}, Raw(contract.merkle))
    ensures DeleteFile(st, contract).1 != Kept
  {
    var raw := Raw(contract.merkle);
    forall k | k in st.db
      ensures !(raw <= k)
    {
      assert raw <= k && TREE_PREFIX <= k ==> TREE_PREFIX <= raw;
      assert raw <= k && CID_PREFIX <= k ==> CID_PREFIX <= raw;
    }
  }

  /**
   * Unless the merkle's bytes start like a key, DeleteFile keeps the remaining contracts linked
   * exactly if the deleted one was the only contract of its merkle.
   */
  lemma {:induction false} RawScanKeepsLinksIff(st: Store, contract: Contract)
    requires CidsPresent(st) && OnlyFileKeys(st)
    requires |contract.merkle| >= 5 && !StartsLikeKey(contract.merkle)
    ensures CidsPresent(DeleteFile(st, contract).0) <==> !SharesMerkle(st, contract)
    ensures DeleteFile(st, contract).1 != Kept
  {
    StaysLinkedIff(st, Raw(contract.merkle), contract);
    RawScanMisses(st, contract);
  }

  /* ---------- the other contracts ---------- */

  /** A delete that removes everything `mine` reaches takes a block that reading chunk i of `theirs` needs. */
  ghost predicate Touches(st: Store, mine: Cid, theirs: Cid, i: nat, c: nat, proofType: int) {
    !(ReachSet(st.blocks, mine) !! Reads(st, theirs, i, c, proofType))
  }

  /** The merkle's recorded root, if its whole DAG is stored, as DeleteBlocks needs it. */
  ghost function Removable(st: Store, merkle: Bytes): Option<Cid> {
    var cid := CidAt(st.db, merkle);
    if cid.Some? && Collects(st.blocks, cid.value) then cid else None
  }

  /**
   * When a delete leaves another contract's chunk alone: the scan hits a remaining key, or the
   * merkles differ and no block that the read needs is in the DAG that goes.
   */
  ghost predicate Spares(st: Store, scan: string, contract: Contract, other: Contract, i: nat, c: nat, proofType: int) {
    var mine, theirs := Removable(st, contract.merkle), CidAt(st.db, other.merkle);
    || HasPrefix(st.db - {TreeKey(contract)}, scan)
    || (contract.merkle != other.merkle &&
        (mine.Some? && theirs.Some? ==> !Touches(st, mine.value, theirs.value, i, c, proofType)))
  }

  /** What a delete does to the store, by whether the scan hits and whether the merkle's DAG can go. */
  lemma StoreAfterDelete(st: Store, scan: string, contract: Contract)
    ensures var (after, r) := RemoveContract(st, scan, contract);
            var hit, mine := HasPrefix(st.db - {TreeKey(contract)}, scan), Removable(st, contract.merkle);
            && (r == Kept <==> hit) && (r == Removed <==> !hit && mine.Some?)
            && after.db == st.db - {TreeKey(contract)} - (if hit then {} else {CidKey(contract.merkle)})
            && after.contents == st.contents && after.nodes == st.nodes
            && after.blocks == if !hit && mine.Some? then st.blocks - ReachSet(st.blocks, mine.value) else st.blocks
  {
    TreeKeyIsNoCidKey(contract, contract.merkle);
    hide TreeKey, CidKey, Collects, ReachSet, HasPrefix;
    var rest := st.db - {TreeKey(contract)};
    assert CidAt(rest, contract.merkle) == CidAt(st.db, contract.merkle);
    assert rest - {} == rest;
  }

  /** A delete touches the other contract's two entries only if it drops the CID entry they share. */
  lemma OtherEntriesAfterDelete(st: Store, scan: string, contract: Contract, other: Contract)
    requires other != contract
    ensures var after := RemoveContract(st, scan, contract).0;
            var hit := HasPrefix(st.db - {TreeKey(contract)}, scan);
            && (TreeKey(other) in after.db <==> TreeKey(other) in st.db)
            && (TreeKey(other) in st.db ==> after.db[TreeKey(other)] == st.db[TreeKey(other)])
            && (!hit && contract.merkle == other.merkle ==> CidKey(other.merkle) !in after.db)
            && (hit || contract.merkle != other.merkle ==>
                  && (CidKey(other.merkle) in after.db <==> CidKey(other.merkle) in st.db)
                  && (CidKey(other.merkle) in st.db ==> after.db[CidKey(other.merkle)] == st.db[CidKey(other.merkle)]))
  {
    KeysApart(contract, other);
    StoreAfterDelete(st, scan, contract);
    hide TreeKey, CidKey, RemoveContract, Collects, ReachSet;
  }

  lemma KeysApart(a: Contract, b: Contract)
    requires a != b
    ensures TreeKey(a) != TreeKey(b) && TreeKey(a) != CidKey(a.merkle)
    ensures TreeKey(a) != CidKey(b.merkle) && TreeKey(b) != CidKey(a.merkle)
    ensures CidKey(a.merkle) == CidKey(b.merkle) <==> a.merkle == b.merkle
  {
    if TreeKey(a) == TreeKey(b) {
      TreeKeyInjective(a, b);
    }
    TreeKeyIsNoCidKey(a, a.merkle);
    TreeKeyIsNoCidKey(a, b.merkle);
    TreeKeyIsNoCidKey(b, a.merkle);
    if CidKey(a.merkle) == CidKey(b.merkle) {
      CidKeyInjective(a.merkle, b.merkle);
    }
  }

  /** A provable chunk stays so in a store with fewer blocks exactly if the blocks that its read needs are there. */
  lemma ProofAfterLoss(st: Store, after: Store, hashing: Hashing, contract: Contract, i: nat, c: nat, proofType: int)
    requires GenProof(st, hashing, contract, i, c, proofType).Ok?
    requires TreeKey(contract) in after.db && after.db[TreeKey(contract)] == st.db[TreeKey(contract)]
    requires var ck := CidKey(contract.merkle); ck in st.db && ck in after.db && after.db[ck] == st.db[ck]
    requires after.contents == st.contents && after.nodes == st.nodes
    ensures var cid := CidAt(st.db, contract.merkle);
            && cid.Some? && Reads(st, cid.value, i, c, proofType) <= st.blocks.Keys
            && GenProof(after, hashing, contract, i, c, proofType) ==
               if Reads(st, cid.value, i, c, proofType) <= after.blocks.Keys
               then GenProof(st, hashing, contract, i, c, proofType)
               else Err(CannotRead(NoChunk))
  {
    hide GenerateMerkleProof, Slice, ChunkWays, TreeKey, CidKey;
  }

  /**
   * A chunk of another contract that was provable before a delete, however the delete ends, is
   * provable after it exactly if the delete spares it, and then with the same proof; else its CID
   * entry is gone if the two share the merkle, and a block on the way to the chunk if not.
   */
  lemma {:induction false} OthersProvableIff(st: Store, hashing: Hashing, scan: string, contract: Contract,
                                             other: Contract, i: nat, c: nat, proofType: int)
    requires other != contract && GenProof(st, hashing, other, i, c, proofType).Ok?
    ensures var after := RemoveContract(st, scan, contract).0;
            var same := GenProof(after, hashing, other, i, c, proofType) == GenProof(st, hashing, other, i, c, proofType);
            && (GenProof(after, hashing, other, i, c, proofType).Ok? <==> same)
            && (same <==> Spares(st, scan, contract, other, i, c, proofType))
            && (!same ==> GenProof(after, hashing, other, i, c, proofType) ==
                          Err(CannotRead(if contract.merkle == other.merkle then NoCid else NoChunk)))
  {
    hide GenerateMerkleProof, Slice, RemoveContract, ReachSet, Collects, ChunkWays, HasPrefix, TreeKey, CidKey;
    var after := RemoveContract(st, scan, contract).0;
    StoreAfterDelete(st, scan, contract);
    OtherEntriesAfterDelete(st, scan, contract, other);
    if HasPrefix(st.db - {TreeKey(contract)}, scan) || contract.merkle != other.merkle {
      hide FileTreeByChunk, FolderChunk, FileChunk;
      ProofAfterLoss(st, after, hashing, other, i, c, proofType);
    }
  }

  /** The blocks on the way to the bytes of a stored file are those that its root reaches. */
  ghost predicate WaysCoverDag(st: Store, cid: Cid) {
    && cid in st.contents && |st.contents[cid].ways| == |st.contents[cid].data|
    && Ways(st.contents[cid], 0, |st.contents[cid].data|) == ReachSet(st.blocks, cid)
  }

  ghost predicate AllProvable(st: Store, hashing: Hashing, contract: Contract, c: nat, proofType: int, n: nat) {
    forall i: nat | i * c < n :: GenProof(st, hashing, contract, i, c, proofType).Ok?
  }

  /**
   * The scan hits a remaining key, or the merkles differ and the DAG that goes shares no block with
   * the other file's.
   */
  ghost predicate SparesFile(st: Store, scan: string, contract: Contract, other: Contract) {
    var mine, theirs := Removable(st, contract.merkle), CidAt(st.db, other.merkle);
    || HasPrefix(st.db - {TreeKey(contract)}, scan)
    || (contract.merkle != other.merkle &&
        (mine.Some? && theirs.Some? ==> ReachSet(st.blocks, mine.value) !! ReachSet(st.blocks, theirs.value)))
  }

  /** All chunks of another contract's file survive a delete exactly if its DAG shares no block with what goes. */
  lemma {:induction false} AllChunksProvableIff(st: Store, hashing: Hashing, scan: string, contract: Contract,
                                                other: Contract, c: nat, proofType: int, file: FileNode)
    requires other != contract && !IsFolder(proofType) && c >= 1 && file.data != []
    requires CidAt(st.db, other.merkle).Some? && WaysCoverDag(st, CidAt(st.db, other.merkle).value)
    requires file == st.contents[CidAt(st.db, other.merkle).value]
    requires AllProvable(st, hashing, other, c, proofType, |file.data|)
    ensures AllProvable(RemoveContract(st, scan, contract).0, hashing, other, c, proofType, |file.data|) <==>
            SparesFile(st, scan, contract, other)
  {
    hide RemoveContract, Spares, SparesFile, WaysCoverDag, GenProof;
    var after := RemoveContract(st, scan, contract).0;
    forall i: nat | i * c < |file.data|
      ensures GenProof(after, hashing, other, i, c, proofType).Ok? <==> Spares(st, scan, contract, other, i, c, proofType)
    {
      OthersProvableIff(st, hashing, scan, contract, other, i, c, proofType);
    }
    SparesEachChunk(st, scan, contract, other, c, proofType, file);
  }

  lemma SparesEachChunk(st: Store, scan: string, contract: Contract, other: Contract, c: nat, proofType: int,
                        file: FileNode)
    requires !IsFolder(proofType) && c >= 1 && file.data != []
    requires CidAt(st.db, other.merkle).Some? && WaysCoverDag(st, CidAt(st.db, other.merkle).value)
    requires file == st.contents[CidAt(st.db, other.merkle).value]
    ensures SparesFile(st, scan, contract, other) <==>
            forall i: nat | i * c < |file.data| :: Spares(st, scan, contract, other, i, c, proofType)
  {
    hide HasPrefix, Collects, ReachSet, ChunkWays;
    var mine := Removable(st, contract.merkle);
    if !HasPrefix(st.db - {TreeKey(contract)}, scan) && contract.merkle != other.merkle && mine.Some? {
      DisjointByChunk(ReachSet(st.blocks, mine.value), file, c);
      assert forall i: nat :: Spares(st, scan, contract, other, i, c, proofType) <==>
                              ReachSet(st.blocks, mine.value) !! ChunkWays(file, i, c);
    } else {
      assert forall i: nat :: Spares(st, scan, contract, other, i, c, proofType) <==> SparesFile(st, scan, contract, other);
      var first := 0;
      assert first * c < |file.data| && (Spares(st, scan, contract, other, first, c, proofType) <==>
                                         SparesFile(st, scan, contract, other));
    }
  }

  lemma {:induction false} DisjointByChunk(gone: set<Cid>, file: FileNode, c: nat)
    requires c >= 1 && |file.ways| == |file.data|
    ensures gone !! Ways(file, 0, |file.data|) <==>
            forall i: nat | i * c < |file.data| :: gone !! ChunkWays(file, i, c)
  {
    forall i: nat
      ensures ChunkWays(file, i, c) <= Ways(file, 0, |file.data|)
    {
    }
    forall b | b in Ways(file, 0, |file.data|)
      ensures exists i: nat :: i * c < |file.data| && b in ChunkWays(file, i, c)
    {
      var j :| 0 <= j < |file.ways| && b in file.ways[j];
      assert j == j / c * c + j % c;
      assert b in ChunkWays(file, j / c, c);
    }
  }

  /* ---------- deleting the garbage report ---------- */

  /** The store after everything that ListUnusedCids reports has been deleted. */
  ghost function WithoutUnused(st: Store): Store {
    st.(blocks := st.blocks - Unused(st.blocks, RootCids(st.db)))
  }

  ghost predicate ReachedByRoot(st: Store, b: Cid) {
    exists r | r in RootCids(st.db) :: Collects(st.blocks, r) && b in ReachSet(st.blocks, r)
  }

  /**
   * A provable chunk survives the deletion of the garbage report exactly if every block that its
   * read needs is reached by a root that collects: of a folder its own root node.
   */
  lemma {:induction false} ReportSparesIff(st: Store, hashing: Hashing, contract: Contract, i: nat, c: nat,
                                           proofType: int)
    requires GenProof(st, hashing, contract, i, c, proofType).Ok?
    ensures CidAt(st.db, contract.merkle).Some?
    ensures var cid, after := CidAt(st.db, contract.merkle).value, WithoutUnused(st);
            GenProof(after, hashing, contract, i, c, proofType) ==
            if forall b | b in Reads(st, cid, i, c, proofType) :: ReachedByRoot(st, b)
            then GenProof(st, hashing, contract, i, c, proofType) else Err(CannotRead(NoChunk))
  {
    hide GenerateMerkleProof, Slice, ReachSet, Collects, ChunkWays, TreeKey, CidKey;
    var after := WithoutUnused(st);
    ProofAfterLoss(st, after, hashing, contract, i, c, proofType);
    var cid := CidAt(st.db, contract.merkle).value;
    hide GenProof;
    forall b | b in st.blocks
      ensures b in after.blocks <==> ReachedByRoot(st, b)
    {
    }
  }

  /** So a file whose whole DAG is stored keeps all its proofs. */
  lemma {:induction false} ReportSparesFiles(st: Store, hashing: Hashing, contract: Contract, i: nat, c: nat,
                                             proofType: int)
    requires GenProof(st, hashing, contract, i, c, proofType).Ok? && !IsFolder(proofType)
    requires var cid := CidAt(st.db, contract.merkle);
             cid.Some? && Collects(st.blocks, cid.value) && WaysCoverDag(st, cid.value)
    ensures GenProof(WithoutUnused(st), hashing, contract, i, c, proofType) ==
            GenProof(st, hashing, contract, i, c, proofType)
  {
    hide GenProof, ReachSet, Collects;
    ReportSparesIff(st, hashing, contract, i, c, proofType);
    var k, cid := CidKey(contract.merkle), CidAt(st.db, contract.merkle).value;
    assert k in st.db && CID_PREFIX <= k && cid in RootCids(st.db);
    forall b | b in Reads(st, cid, i, c, proofType)
      ensures ReachedByRoot(st, b)
    {
      assert b in Ways(st.contents[cid], 0, |st.contents[cid].data|);
    }
  }
}
