/**
 * What the file system's operations do to its database and block store, as functions on
 * values; the class in FileSystems.dfy is proved against them.
 */
module FileStore {
  import opened Wrappers
  import opened Text
  import opened Keys
  import opened Merkle
  import opened FileTree
  import opened Dag

  /** A database value: an exported tree, a CID text that may fail to decode, or anything else. */
  datatype Value = TreeValue(tree: MerkleTree) | CidValue(cid: Option<Cid>) | OtherValue

  /** A file in the block store: its bytes, and for each byte the blocks on the way to it. */
  datatype FileNode = FileNode(data: Bytes, ways: seq<set<Cid>>)

  /** The blocks on the way to the bytes from `from` up to `to`. */
  function Ways(file: FileNode, from: nat, to: nat): set<Cid> {
    set j, b | from <= j < to && j < |file.ways| && b in file.ways[j] :: b
  }

  /** Those on the way to chunk i. */
  function ChunkWays(file: FileNode, i: nat, c: nat): set<Cid> {
    Ways(file, i * c, i * c + c)
  }

  /**
   * `contents` is what a root CID stands for as a UnixFS file; `nodes` is what a root node
   * marshals to, for those that are protobuf nodes.
   */
  datatype Store = Store(db: map<string, Value>, blocks: Blocks, contents: map<Cid, FileNode>, nodes: map<Cid, Bytes>)

  const EMPTY_STORE := Store(map[], map[], map[], map[])

  function CidAt(db: map<string, Value>, merkle: Bytes): Option<Cid> {
    var k := CidKey(merkle);
    if k in db && db[k].CidValue? then db[k].cid else None
  }

  /* ---------- writing ---------- */

  /**
   * The IPFS peer's answer when a file, or the folder node decoded from its bytes, is added: a
   * failure, also to decode it, or the root CID, the blocks it stored, for a file the blocks on the
   * way to each byte, and the root node's JSON.
   */
  datatype AddReply = NotAdded | Added(root: Cid, blocks: Blocks, ways: seq<set<Cid>>, json: Option<Bytes>)

  predicate IsFolder(proofType: int) {
    proofType == PROOF_TYPE_IPFS_FOLDER
  }

  /**
   * The peer agrees with stored blocks of the same CIDs, stores a file as a complete DAG each block
   * of which is on the way to some byte, and never reuses a root CID for other bytes, nor for a file
   * and a folder.
   */
  ghost predicate Faithful(st: Store, data: Bytes, proofType: int, reply: AddReply) {
    reply.Added? ==>
      && (forall c | c in reply.blocks && c in st.blocks :: reply.blocks[c] == st.blocks[c])
      && (if IsFolder(proofType) then reply.json.Some? && reply.root !in st.contents
          else
            && Collects(reply.blocks, reply.root)
            && |reply.ways| == |data| && (forall j | 0 <= j < |data| :: reply.root in reply.ways[j])
            && (data != [] ==> Ways(FileNode(data, reply.ways), 0, |data|) == ReachSet(reply.blocks, reply.root))
            && (reply.root in st.contents ==> st.contents[reply.root] == FileNode(data, reply.ways))
            && (reply.root in st.nodes ==> reply.root in st.contents))
  }

  /** The store after the peer took the bytes. */
  function AfterAdd(st: Store, data: Bytes, proofType: int, reply: AddReply): Store {
    match reply
    case NotAdded => st
    case Added(root, blocks, ways, json) =>
      Store(st.db,
            st.blocks + blocks,
            if IsFolder(proofType) then st.contents else st.contents[root := FileNode(data, ways)],
            if json.Some? then st.nodes[root := json.value] else st.nodes)
  }

  datatype WriteError = CannotBuildTree | MerkleMismatch | CannotAdd

  datatype Written = Written(size: nat, cid: Cid)

  /**
   * `data` is all the reader holds and `from` its position: the tree covers the unread bytes, the
   * stored file or folder node all of them.
   */
  function WriteFile(st: Store, hashing: Hashing, data: Bytes, from: nat, contract: Contract, c: nat,
                     proofType: int, reply: AddReply)
    : (Store, Result<Written, WriteError>)
    requires from <= |data|
  {
    match Build(hashing.For(proofType), data[from..], c)
    case Err(_) => (st, Err(CannotBuildTree))
    case Ok(built) =>
      if Hex(contract.merkle) != Hex(built.root) then (st, Err(MerkleMismatch))
      else
        match reply
        case NotAdded => (st, Err(CannotAdd))
        case Added(cid, _, _, _) =>
          var db := st.db[TreeKey(contract) := TreeValue(built.tree)]
                         [CidKey(contract.merkle) := CidValue(Some(cid))];
          (AfterAdd(st, data, proofType, reply).(db := db), Ok(Written(built.size, cid)))
  }

  /* ---------- reading and proving ---------- */

  /** NotProtobuf is the failing type assertion on a folder read of a raw node. */
  datatype ReadError = NoTree | BadTree | NoCid | BadCid | NoChunk | NotProtobuf

  /** The blocks that a read asks for: of a file those on the way to chunk i, of a folder the root node. */
  function Reads(st: Store, cid: Cid, i: nat, c: nat, proofType: int): set<Cid> {
    if IsFolder(proofType) then {cid}
    else if cid in st.contents then ChunkWays(st.contents[cid], i, c)
    else {}
  }

  /** AddFile's counterpart: chunk i of a file, if the blocks on the way to its bytes are stored. */
  function FileChunk(st: Store, cid: Cid, i: nat, c: nat): Option<Bytes> {
    if cid in st.contents && i * c < |st.contents[cid].data| && ChunkWays(st.contents[cid], i, c) <= st.blocks.Keys
    then Some(Slice(st.contents[cid].data, c, i))
    else None
  }

  /** The whole root node as JSON, whatever the chunk index. */
  function FolderChunk(st: Store, cid: Cid): Result<Bytes, ReadError> {
    if cid !in st.blocks then Err(NoChunk)
    else if cid !in st.nodes then Err(NotProtobuf)
    else Ok(st.nodes[cid])
  }

  function FileTreeByChunk(st: Store, contract: Contract, i: nat, c: nat, proofType: int)
    : Result<(MerkleTree, Bytes), ReadError>
  {
    var tk, ck := TreeKey(contract), CidKey(contract.merkle);
    if tk !in st.db then Err(NoTree)
    else if !st.db[tk].TreeValue? then Err(BadTree)
    else if ck !in st.db then Err(NoCid)
    else if CidAt(st.db, contract.merkle).None? then Err(BadCid)
    else if IsFolder(proofType) then
      match FolderChunk(st, CidAt(st.db, contract.merkle).value)
      case Err(e) => Err(e)
      case Ok(chunk) => Ok((st.db[tk].tree, chunk))
    else
      match FileChunk(st, CidAt(st.db, contract.merkle).value, i, c)
      case None => Err(NoChunk)
      case Some(chunk) => Ok((st.db[tk].tree, chunk))
  }

  datatype ProofError = CannotRead(read: ReadError) | LeafNotFound | NotValid

  function GenProof(st: Store, hashing: Hashing, contract: Contract, i: nat, c: nat, proofType: int)
    : Result<(Proof, Bytes), ProofError>
  {
    match FileTreeByChunk(st, contract, i, c, proofType)
    case Err(e) => Err(CannotRead(e))
    case Ok((tree, chunk)) =>
      match GenerateMerkleProof(hashing.For(proofType), tree, i, chunk)
      case None => Err(LeafNotFound)
      case Some((valid, proof)) => if valid then Ok((proof, chunk)) else Err(NotValid)
  }

  /** The root CIDs recorded in the database. */
  ghost function RootCids(db: map<string, Value>): set<Cid> {
    set k | k in db && CID_PREFIX <= k && db[k].CidValue? && db[k].cid.Some? :: db[k].cid.value
  }

  /* ---------- deleting ---------- */

  /** Kept and Removed are the nil returns, the others are errors. */
  datatype Deleted = Kept | Removed | CidNotDecoded | NotCollected

  /** Raw bytes read as text, as the byte prefix of a database scan. */
  function Raw(b: Bytes): string {
    seq(|b|, i requires 0 <= i < |b| => b[i] as char)
  }

  predicate HasPrefix(db: map<string, Value>, prefix: string) {
    exists k | k in db :: prefix <= k
  }

  ghost function DeleteBlocks(st: Store, merkle: Bytes): (Store, Deleted) {
    var rest := st.(db := st.db - {CidKey(merkle)});
    match CidAt(st.db, merkle)
    case None => (rest, CidNotDecoded)
    case Some(cid) =>
      var (left, ok) := RemoveDag(st.blocks, cid);
      if ok then (rest.(blocks := left), Removed) else (rest, NotCollected)
  }

  /** removeContract with the prefix of its look for other contracts as a parameter. */
  ghost function RemoveContract(st: Store, scan: string, contract: Contract): (Store, Deleted) {
    var rest := st.(db := st.db - {TreeKey(contract)});
    if HasPrefix(rest.db, scan) then (rest, Kept) else DeleteBlocks(rest, contract.merkle)
  }

  /** DeleteFile scans for the raw bytes of the merkle. */
  ghost function DeleteFile(st: Store, contract: Contract): (Store, Deleted) {
    RemoveContract(st, Raw(contract.merkle), contract)
  }
}
