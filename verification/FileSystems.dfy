/** The file system object: file_system/file_system.go and file_system/ipfs.go. */
module FileSystems {
  import opened Wrappers
  import opened Text
  import opened Keys
  import opened Merkle
  import opened FileTree
  import opened BytesReader
  import opened Dag
  import opened FileStore

  /** Reads the reader to its end in pieces of chunkSize bytes and builds the tree over them. */
  method BuildTree(s: Suite, reader: BytesSeeker, chunkSize: nat) returns (r: Result<Built, BuildError>)
    requires reader.Valid()
    modifies reader`pos
    ensures reader.Valid()
    ensures r == Build(s, old(reader.Unread()), chunkSize)
    ensures chunkSize > 0 ==> reader.Unread() == []
  {
    var size := 0;
    var data: seq<Bytes> := [];
    var index := 0;
    ghost var all := reader.Unread();
    ghost var chunks: seq<Bytes> := [];
    while true
      invariant reader.Valid()
      invariant size + |reader.Unread()| == |all|
      invariant index == |chunks|
      invariant data == Leaves(s, chunks)
      invariant chunkSize == 0 ==> chunks == [] && reader.Unread() == all
      invariant chunkSize > 0 ==> chunks + Chunks(reader.Unread(), chunkSize) == Chunks(all, chunkSize)
      decreases |reader.Unread()|
    {
      ghost var unread := reader.Unread();
      var b := new Byte[chunkSize];
      var read, _ := reader.Read(b);
      if read == 0 {
        break;
      }
      var chunk := b[..read];
      size := size + read;
      NextChunk(unread, chunk, reader.Unread(), chunkSize);
      data := data + [s.content(LeafText(index, chunk))];
      ghost var before := chunks;
      chunks := chunks + [chunk];
      assert before + ([chunk] + Chunks(reader.Unread(), chunkSize)) == chunks + Chunks(reader.Unread(), chunkSize);
      index := index + 1;
    }
    if chunkSize > 0 {
      assert chunks == Chunks(all, chunkSize);
      assert data == FileLeaves(s, all, chunkSize);
    }
    match NewTree(s, data)
    case None =>
      return Err(NoLeaves);
    case Some(tree) =>
      return Ok(Built(RootOf(tree), tree, size));
  }

  lemma NextChunk(unread: Bytes, chunk: Bytes, rest: Bytes, c: nat)
    requires c >= 1 && 0 < |chunk| <= c && unread == chunk + rest
    requires |chunk| == c || rest == []
    ensures Chunks(unread, c) == [chunk] + Chunks(rest, c)
  {
    if |unread| > c {
      assert unread[..c] == chunk && unread[c..] == rest;
    } else if rest == [] {
      assert unread == chunk;
    }
  }

  class FileSystem {
    const hashing: Hashing
    var db: map<string, Value>
    var blocks: Blocks
    var contents: map<Cid, FileNode>
    var nodes: map<Cid, Bytes>

    function View(): Store
      reads this
    {
      Store(db, blocks, contents, nodes)
    }

    constructor (hashing: Hashing)
      ensures this.hashing == hashing && View() == EMPTY_STORE
    {
      this.hashing := hashing;
      db, blocks, contents, nodes := map[], map[], map[], map[];
    }

    /** The IPFS peer takes everything the reader still returns, as a file, and answers with `reply`. */
    method AddFile(reader: BytesSeeker, reply: AddReply)
      requires reader.Valid()
      modifies this`blocks, this`contents, this`nodes, reader`pos
      ensures reader.Valid()
      ensures View() == AfterAdd(old(View()), old(reader.Unread()), 0, reply)
    {
      match reply
      case NotAdded =>
      case Added(root, added, ways, json) =>
        blocks := blocks + added;
        contents := contents[root := FileNode(reader.Unread(), ways)];
        if json.Some? {
          nodes := nodes[root := json.value];
        }
        reader.pos := |reader.data|;
    }

    /** The folder node decoded from everything the reader still returns is added. */
    method AddFolder(reader: BytesSeeker, reply: AddReply)
      requires reader.Valid()
      modifies this`blocks, this`nodes, reader`pos
      ensures reader.Valid()
      ensures View() == AfterAdd(old(View()), old(reader.Unread()), PROOF_TYPE_IPFS_FOLDER, reply)
    {
      match reply
      case NotAdded =>
      case Added(root, added, _, json) =>
        blocks := blocks + added;
        if json.Some? {
          nodes := nodes[root := json.value];
        }
        reader.pos := |reader.data|;
    }

    method WriteFile(reader: BytesSeeker, contract: Contract, chunkSize: nat, proofType: int, reply: AddReply)
      returns (r: Result<Written, WriteError>)
      requires reader.Valid()
      modifies this, reader`pos
      ensures reader.Valid()
      ensures (View(), r) == FileStore.WriteFile(old(View()), hashing, reader.data, old(reader.pos), contract, chunkSize,
                                                 proofType, reply)
    {
      var built := BuildTree(hashing.For(proofType), reader, chunkSize);
      if built.Err? {
        return Err(CannotBuildTree);
      }
      if Hex(contract.merkle) != Hex(built.value.root) {
        return Err(MerkleMismatch);
      }
      var sought := reader.Seek(0, SEEK_START);
      assert reader.Unread() == reader.data;
      if proofType == PROOF_TYPE_IPFS_FOLDER {
        AddFolder(reader, reply);
      } else {
        AddFile(reader, reply);
      }
      match reply
      case NotAdded =>
        return Err(CannotAdd);
      case Added(cid, _, _, _) =>
        db := db[TreeKey(contract) := TreeValue(built.value.tree)][CidKey(contract.merkle) := CidValue(Some(cid))];
        return Ok(Written(built.value.size, cid));
    }

    method GetFileTreeByChunk(contract: Contract, chunkToLoad: nat, chunkSize: nat, proofType: int)
      returns (r: Result<(MerkleTree, Bytes), ReadError>)
      ensures r == FileTreeByChunk(View(), contract, chunkToLoad, chunkSize, proofType)
    {
      var tree := TreeKey(contract);
      if tree !in db {
        return Err(NoTree);
      }
      if !db[tree].TreeValue? {
        return Err(BadTree);
      }
      if CidKey(contract.merkle) !in db {
        return Err(NoCid);
      }
      var fcid := CidAt(db, contract.merkle);
      if fcid.None? {
        return Err(BadCid);
      }
      if proofType == PROOF_TYPE_IPFS_FOLDER {
        if fcid.value !in blocks {
          return Err(NoChunk);
        }
        if fcid.value !in nodes {
          return Err(NotProtobuf);
        }
        return Ok((db[tree].tree, nodes[fcid.value]));
      }
      var chunkOut := GetFileChunk(fcid.value, chunkToLoad, chunkSize);
      if chunkOut.None? {
        return Err(NoChunk);
      }
      return Ok((db[tree].tree, chunkOut.value));
    }

    /** The peer reads the bytes of one chunk, asking for the blocks on the way to them. */
    method GetFileChunk(cid: Cid, chunkToLoad: nat, chunkSize: nat) returns (chunk: Option<Bytes>)
      ensures chunk == FileChunk(View(), cid, chunkToLoad, chunkSize)
    {
      if cid !in contents || chunkToLoad * chunkSize >= |contents[cid].data| {
        return None;
      }
      if exists b | b in ChunkWays(contents[cid], chunkToLoad, chunkSize) :: b !in blocks {
        return None;
      }
      return Some(Slice(contents[cid].data, chunkSize, chunkToLoad));
    }

    /** GenProof of proofs/proofs.go. */
    method GenProof(contract: Contract, block: nat, chunkSize: nat, proofType: int)
      returns (r: Result<(Proof, Bytes), ProofError>)
      ensures r == FileStore.GenProof(View(), hashing, contract, block, chunkSize, proofType)
    {
      var loaded := GetFileTreeByChunk(contract, block, chunkSize, proofType);
      if loaded.Err? {
        return Err(CannotRead(loaded.error));
      }
      var (tree, chunk) := loaded.value;
      match GenerateMerkleProof(hashing.For(proofType), tree, block, chunk)
      case None =>
        return Err(LeafNotFound);
      case Some((valid, proof)) =>
        return if valid then Ok((proof, chunk)) else Err(NotValid);
    }

    /* ---------- deleting ---------- */

    method DeleteFile(contract: Contract) returns (r: Deleted)
      modifies this
      ensures (View(), r) == FileStore.DeleteFile(old(View()), contract)
    {
      r := RemoveContract(Raw(contract.merkle), contract);
    }

    method RemoveContract(scan: string, contract: Contract) returns (r: Deleted)
      modifies this
      ensures (View(), r) == FileStore.RemoveContract(old(View()), scan, contract)
    {
      db := db - {TreeKey(contract)};
      var keys := Scan(scan);
      assert HasPrefix(db, scan) <==> keys != [] by {
        if keys != [] {
          assert keys[0] in keys;
        }
      }
      if keys != [] {
        return Kept;
      }
      r := DeleteBlocks(contract.merkle);
    }

    method DeleteBlocks(merkle: Bytes) returns (r: Deleted)
      modifies this
      ensures (View(), r) == FileStore.DeleteBlocks(old(View()), merkle)
    {
      var fcid := CidAt(db, merkle);
      db := db - {CidKey(merkle)};
      if fcid.None? {
        return CidNotDecoded;
      }
      var ok := RemoveDagNode(fcid.value);
      return if ok then Removed else NotCollected;
    }

    method RemoveDagNode(root: Cid) returns (ok: bool)
      modifies this`blocks
      ensures (blocks, ok) == RemoveDag(old(blocks), root)
    {
      var collected := CollectDagNodes(blocks, root);
      if collected.None? {
        return false;
      }
      var nodesToRemove := collected.value;
      while nodesToRemove != {}
        invariant nodesToRemove <= collected.value
        invariant blocks == old(blocks) - (collected.value - nodesToRemove)
        decreases nodesToRemove
      {
        var c :| c in nodesToRemove;
        nodesToRemove := nodesToRemove - {c};
        blocks := blocks - {c};
      }
      assert collected.value - {} == collected.value;
      return true;
    }

    /* ---------- listing ---------- */

    /** The database iterator over one key prefix: every such key once. */
    method Scan(prefix: string) returns (keys: seq<string>)
      ensures ScanOf(db, prefix, keys)
    {
      keys := [];
      var left := set k | k in db && prefix <= k;
      ghost var all := left;
      while left != {}
        invariant left <= all
        invariant forall k | k in all - left :: k in keys
        invariant forall i | 0 <= i < |keys| :: keys[i] in all && keys[i] !in left
        invariant NoDuplicates(keys)
        decreases left
      {
        var k :| k in left;
        keys := keys + [k];
        left := left - {k};
      }
    }

    /** The three parallel lists of contracts, up to the first key that does not parse. */
    method ListFiles() returns (merkles: seq<Bytes>, owners: seq<string>, starts: seq<Int64>, err: Option<SplitError>)
      ensures |merkles| == |owners| == |starts|
      ensures Listing(db, Zip(merkles, owners, starts), err)
    {
      hide SplitMerkle;
      merkles, owners, starts := [], [], [];
      var keys := Scan(TREE_PREFIX);
      for i := 0 to |keys|
        invariant |merkles| == |owners| == |starts| == i
        invariant ParsedUpTo(keys, Zip(merkles, owners, starts))
      {
        match SplitMerkle(keys[i][|TREE_PREFIX|..])
        case Err(e) =>
          assert StopsAt(keys, Zip(merkles, owners, starts), Some(e));
          return merkles, owners, starts, Some(e);
        case Ok(c) =>
          ghost var before := Zip(merkles, owners, starts);
          merkles, owners, starts := merkles + [c.merkle], owners + [c.owner], starts + [c.start];
          assert Zip(merkles, owners, starts) == before + [c];
      }
      assert StopsAt(keys, Zip(merkles, owners, starts), None);
      return merkles, owners, starts, None;
    }

    /** The contracts that ProcessFiles passes to its callback, in order. */
    method ProcessFiles() returns (calls: seq<Contract>, err: Option<SplitError>)
      ensures Listing(db, calls, err)
    {
      calls := [];
      var keys := Scan(TREE_PREFIX);
      for i := 0 to |keys|
        invariant |calls| == i
        invariant ParsedUpTo(keys, calls)
      {
        var split := SplitMerkle(keys[i][|TREE_PREFIX|..]);
        if split.Err? {
          assert StopsAt(keys, calls, Some(split.error));
          return calls, Some(split.error);
        }
        calls := calls + [split.value];
      }
      assert StopsAt(keys, calls, None);
      return calls, None;
    }

    /** The CID texts of the database in scan order, decoded where they decode. */
    method ListCids() returns (cids: seq<Option<Cid>>)
      ensures CidListing(db, cids)
    {
      cids := [];
      var keys := Scan(CID_PREFIX);
      for i := 0 to |keys|
        invariant |cids| == i
        invariant forall j | 0 <= j < i :: cids[j] == DecodedCid(db[keys[j]])
      {
        cids := cids + [DecodedCid(db[keys[i]])];
      }
    }

    /** The garbage report: exactly the stored blocks that no collectable root reaches, once each. */
    method ListUnusedCids() returns (unusedCids: seq<Cid>)
      ensures forall c :: c in unusedCids <==> c in Unused(blocks, RootCids(db))
      ensures NoDuplicates(unusedCids)
    {
      hide CidListing, RootCids, Unused, Collects, ReachSet;
      var roots := ListCids();
      var referenced: set<Cid> := {};
      for i := 0 to |roots|
        invariant forall c :: c in referenced <==>
                    exists j | 0 <= j < i :: roots[j].Some? && Collects(blocks, roots[j].value) &&
                                             c in ReachSet(blocks, roots[j].value)
      {
        if roots[i].Some? {
          var nodes := CollectDagNodes(blocks, roots[i].value);
          if nodes.Some? {
            referenced := referenced + nodes.value;
          }
        }
      }
      assert forall c :: c in Unused(blocks, RootCids(db)) <==> c in blocks && c !in referenced by {
        CidListingIsRoots(db, roots);
        ReferencedAreUsed(blocks, RootCids(db), roots, referenced);
      }
      unusedCids := [];
      var left := blocks.Keys;
      while left != {}
        invariant left <= blocks.Keys
        invariant forall c :: c in unusedCids <==> c in blocks && c !in left && c !in referenced
        invariant NoDuplicates(unusedCids)
        decreases left
      {
        var c :| c in left;
        left := left - {c};
        if c !in referenced {
          unusedCids := unusedCids + [c];
        }
      }
    }
  }

  predicate NoDuplicates<T(==)>(s: seq<T>) {
    forall i, j | 0 <= i < j < |s| :: s[i] != s[j]
  }

  /** The keys of one prefix, each once, in some order. */
  ghost predicate ScanOf(db: map<string, Value>, prefix: string, keys: seq<string>) {
    && (forall k | k in db && prefix <= k :: k in keys)
    && (forall i | 0 <= i < |keys| :: keys[i] in db && prefix <= keys[i])
    && NoDuplicates(keys)
  }

  function Zip(merkles: seq<Bytes>, owners: seq<string>, starts: seq<Int64>): seq<Contract>
    requires |merkles| == |owners| == |starts|
  {
    seq(|merkles|, i requires 0 <= i < |merkles| => Contract(merkles[i], owners[i], starts[i]))
  }

  /** The listed contracts are the parses of the first keys. */
  ghost predicate ParsedUpTo(keys: seq<string>, listed: seq<Contract>) {
    && |listed| <= |keys|
    && forall i | 0 <= i < |listed| ::
         TREE_PREFIX <= keys[i] && SplitMerkle(keys[i][|TREE_PREFIX|..]) == Ok(listed[i])
  }

  /** All keys are listed, or the first unlisted one fails to parse with the error. */
  ghost predicate StopsAt(keys: seq<string>, listed: seq<Contract>, err: Option<SplitError>) {
    match err
    case None => |listed| == |keys|
    case Some(e) =>
      |listed| < |keys| && TREE_PREFIX <= keys[|listed|] && SplitMerkle(keys[|listed|][|TREE_PREFIX|..]) == Err(e)
  }

  /** A pass over the tree keys, each once in some order, that parses them until the end or an error. */
  ghost predicate Listing(db: map<string, Value>, listed: seq<Contract>, err: Option<SplitError>) {
    exists keys :: ScanOf(db, TREE_PREFIX, keys) && ParsedUpTo(keys, listed) && StopsAt(keys, listed, err)
  }

  function DecodedCid(v: Value): Option<Cid> {
    if v.CidValue? then v.cid else None
  }

  /** One entry for every CID key, in some order. */
  ghost predicate CidListing(db: map<string, Value>, cids: seq<Option<Cid>>) {
    exists keys ::
      && ScanOf(db, CID_PREFIX, keys) && |cids| == |keys|
      && forall i | 0 <= i < |keys| :: cids[i] == DecodedCid(db[keys[i]])
  }

  lemma CidListingIsRoots(db: map<string, Value>, cids: seq<Option<Cid>>)
    requires CidListing(db, cids)
    ensures forall c :: Some(c) in cids <==> c in RootCids(db)
  {
    var keys :| ScanOf(db, CID_PREFIX, keys) && |cids| == |keys| &&
                forall i | 0 <= i < |keys| :: cids[i] == DecodedCid(db[keys[i]]);
    forall c
      ensures Some(c) in cids <==> c in RootCids(db)
    {
      hide CidListing, NoDuplicates;
      RootIsListed(db, keys, cids, c);
      ListedIsRoot(db, keys, cids, c);
    }
  }

  lemma RootIsListed(db: map<string, Value>, keys: seq<string>, cids: seq<Option<Cid>>, c: Cid)
    requires ScanOf(db, CID_PREFIX, keys) && |cids| == |keys|
    requires forall i | 0 <= i < |keys| :: cids[i] == DecodedCid(db[keys[i]])
    ensures c in RootCids(db) ==> Some(c) in cids
  {
    if c in RootCids(db) {
      var k :| k in db && CID_PREFIX <= k && db[k] == CidValue(Some(c));
      assert k in keys;
      var i :| 0 <= i < |keys| && keys[i] == k;
      assert cids[i] == Some(c);
    }
  }

  lemma ListedIsRoot(db: map<string, Value>, keys: seq<string>, cids: seq<Option<Cid>>, c: Cid)
    requires ScanOf(db, CID_PREFIX, keys) && |cids| == |keys|
    requires forall i | 0 <= i < |keys| :: cids[i] == DecodedCid(db[keys[i]])
    ensures Some(c) in cids ==> c in RootCids(db)
  {
    if Some(c) in cids {
      var i :| 0 <= i < |keys| && cids[i] == Some(c);
      assert keys[i] in db && db[keys[i]] == CidValue(Some(c));
    }
  }

  lemma ReferencedAreUsed(blocks: Blocks, rootSet: set<Cid>, roots: seq<Option<Cid>>, referenced: set<Cid>)
    requires forall c :: Some(c) in roots <==> c in rootSet
    requires forall c :: c in referenced <==>
               exists j | 0 <= j < |roots| :: roots[j].Some? && Collects(blocks, roots[j].value) &&
                                              c in ReachSet(blocks, roots[j].value)
    ensures forall c :: c in Unused(blocks, rootSet) <==> c in blocks && c !in referenced
  {
    forall c | c in blocks
      ensures c in referenced <==> c !in Unused(blocks, rootSet)
    {
      if c in referenced {
        var j :| 0 <= j < |roots| && roots[j].Some? && Collects(blocks, roots[j].value) &&
                 c in ReachSet(blocks, roots[j].value);
        assert Some(roots[j].value) in roots;
      }
      if c !in Unused(blocks, rootSet) {
        var r :| r in rootSet && Collects(blocks, r) && c in ReachSet(blocks, r);
        assert Some(r) in roots;
      }
    }
  }
}
