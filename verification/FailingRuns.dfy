/** Runs after which a live file or folder can no longer be proved. */
module FailingRuns {
  import opened Wrappers
  import opened Text
  import opened Keys
  import opened Merkle
  import opened FileTree
  import opened Dag
  import opened FileStore
  import opened DeleteTheorems
  import opened RunTheorems
  import opened ProvableRuns

  /* ---------- the raw scan ---------- */

  /**
   * With the scan of the code: after every run, deleting one of two live contracts of a merkle whose
   * bytes do not start like a key leaves the other one live and listed, but without its CID entry,
   * so that no proof of it can be made.
   */
  lemma {:induction false} RawScanOrphans(x: Setting, run: seq<Event>, a: Contract, b: Contract)
    requires x.Valid() && forall m :: x.scan(m) == Raw(m)
    requires a in Live(x, run) && b in Live(x, run) && a != b && a.merkle == b.merkle && !StartsLikeKey(a.merkle)
    ensures b in Live(x, run + [Delete(a)])
    ensures var after := Exec(x, run + [Delete(a)]);
            && TreeKey(b) in after.db && CidKey(b.merkle) !in after.db
            && forall i: nat, proofType: int ::
                 GenProof(after, x.hashing, b, i, x.c, proofType) == Err(CannotRead(NoCid))
  {
    var st, longer := Exec(x, run), run + [Delete(a)];
    LiveMerkleIsLong(x, run, a);
    RunHasOnlyFileKeys(x, run);
    RawScanMisses(st, a);
    OtherEntriesAfterDelete(st, Raw(a.merkle), a, b);
    ExecAppend(x, run, Delete(a));
    LiveAppend(x, run, Delete(a));
    TreeKeysAreLive(x, longer);
    StoredTreesMatchKeys(x, longer, b);
  }

  lemma LiveMerkleIsLong(x: Setting, run: seq<Event>, c: Contract)
    requires x.Valid() && c in Live(x, run)
    ensures |c.merkle| >= 32
  {
    LiveWritesAreLive(x, run);
    var e :| e in LiveWrites(x, run) && e.contract == c;
    BuiltRoot(x.hashing.For(e.proofType), e.data, x.c);
  }

  lemma LiveAppend(x: Setting, run: seq<Event>, e: Event)
    ensures Live(x, run + [e]) == LiveAfter(x, Live(x, run), e)
  {
    assert (run + [e])[..|run|] == run;
  }

  /* ---------- shared blocks ---------- */

  /** The hex scan finds nothing if no other contract of the merkle is live. */
  lemma HexScanMisses(db: map<string, Value>, live: set<Contract>, c: Contract)
    requires KeysAre(db, live) && forall d | d in live && d != c :: d.merkle != c.merkle
    ensures !HasPrefix(db - {TreeKey(c)}, MerklePrefix(c.merkle))
  {
    forall k | k in db - {TreeKey(c)}
      ensures !(MerklePrefix(c.merkle) <= k)
    {
      if IsTreeKey(k) {
        var d: Contract :| k == TreeKey(d);
        MerklePrefixSelects(c.merkle, d);
      } else {
        assert MerklePrefix(c.merkle)[0] == 't' && k[0] == 'c';
      }
    }
  }

  /**
   * Also with the hex scan: after every run, deleting the only live contract of a merkle loses
   * exactly those provable chunks of the other contracts that a block of its DAG is on the way to.
   */
  lemma {:induction false} SharedBlockOrphans(x: Setting, run: seq<Event>, a: Contract, b: Contract, i: nat,
                                              proofType: int)
    requires x.Valid() && (forall m :: x.scan(m) == MerklePrefix(m))
    requires b != a && forall d | d in Live(x, run) && d != a :: d.merkle != a.merkle
    requires GenProof(Exec(x, run), x.hashing, b, i, x.c, proofType).Ok?
    ensures b in Live(x, run + [Delete(a)]) && CidAt(Exec(x, run).db, b.merkle).Some?
    ensures var st, after := Exec(x, run), Exec(x, run + [Delete(a)]);
            var mine, theirs := Removable(st, a.merkle), CidAt(st.db, b.merkle);
            GenProof(after, x.hashing, b, i, x.c, proofType) ==
            if mine.Some? && Touches(st, mine.value, theirs.value, i, x.c, proofType) then Err(CannotRead(NoChunk))
            else GenProof(st, x.hashing, b, i, x.c, proofType)
  {
    var st := Exec(x, run);
    TreeKeysAreLive(x, run);
    assert TreeKey(b) in st.db && CidAt(st.db, b.merkle).Some?;
    HexScanMisses(st.db, Live(x, run), a);
    ExecAppend(x, run, Delete(a));
    LiveAppend(x, run, Delete(a));
    hide Exec, Live, KeysAre, GenProof, HasPrefix, MerklePrefix, Touches, Removable, RemoveContract;
    OthersProvableIff(st, x.hashing, MerklePrefix(a.merkle), a, b, i, x.c, proofType);
  }

  /* ---------- a folder over a file ---------- */

  /**
   * After every run, a successful write of a folder whose merkle a live contract shares takes over
   * the CID entry, and no chunk of that contract can be read as a file any more.
   */
  lemma {:induction false} FolderHidesFile(x: Setting, run: seq<Event>, f: Event, c: Contract, i: nat, proofType: int)
    requires x.Valid() && Succeeds(x, f) && IsFolder(f.proofType) && !IsFolder(proofType)
    requires Faithful(Exec(x, run), f.data, f.proofType, f.reply)
    requires c in Live(x, run + [f]) && c.merkle == f.contract.merkle
    ensures GenProof(Exec(x, run + [f]), x.hashing, c, i, x.c, proofType) == Err(CannotRead(NoChunk))
  {
    TreeKeysAreLive(x, run + [f]);
    StoredTreesMatchKeys(x, run + [f], c);
    ExecAppend(x, run, f);
    CidAfterStep(x, Exec(x, run), f, c.merkle);
    RecordedAfterStep(x, Exec(x, run), f, f);
    hide Exec, Step, Live, FileRoot, Faithful;
  }

  /* ---------- the garbage report and a folder that is stored in part ---------- */

  /** The peer's answer for a folder with these links, none of them stored with it. */
  function FolderReply(root: nat, links: seq<Cid>, json: Bytes): AddReply {
    Added(Cid(root), map[Cid(root) := links], [], Some(json))
  }

  /**
   * In every setting, a folder whose bytes fit in a chunk and that links to a block which is not
   * stored here is provable, and no longer once what ListUnusedCids reports has been deleted.
   */
  lemma {:induction false} ReportOrphansFolder(x: Setting, json: Bytes)
    requires x.Valid() && 0 < |json| <= x.c
    ensures var c := Contract(FileRoot(x.hashing.standard, json, x.c), "alice", 0);
            var run := [Write(json, c, PROOF_TYPE_IPFS_FOLDER, FolderReply(2, [Cid(9)], json))];
            && FaithfulRun(x, run)
            && GenProof(Exec(x, run), x.hashing, c, 0, x.c, PROOF_TYPE_IPFS_FOLDER).Ok?
            && GenProof(WithoutUnused(Exec(x, run)), x.hashing, c, 0, x.c, PROOF_TYPE_IPFS_FOLDER) ==
               Err(CannotRead(NoChunk))
  {
    var c := Contract(FileRoot(x.hashing.standard, json, x.c), "alice", 0);
    var w := Write(json, c, PROOF_TYPE_IPFS_FOLDER, FolderReply(2, [Cid(9)], json));
    OneWrite(x, w);
    FolderInPlace(x, w);
    hide Exec, Step, FileRoot, GenProof, FaithfulRun, RootCids;
    FolderIsProvable(x, Step(x, EMPTY_STORE, w), w);
    FolderIsReported(x, Step(x, EMPTY_STORE, w), w);
  }

  lemma OneWrite(x: Setting, e: Event)
    requires e.Write? && Faithful(EMPTY_STORE, e.data, e.proofType, e.reply)
    ensures Exec(x, [e]) == Step(x, EMPTY_STORE, e) && FaithfulRun(x, [e])
  {
    hide Step, Faithful;
    assert [e][..0] == [];
  }

  lemma FolderIsReported(x: Setting, st: Store, w: Event)
    requires w.Write? && IsFolder(w.proofType)
    requires CidKey(w.contract.merkle) in st.db && st.db[CidKey(w.contract.merkle)] == CidValue(Some(Cid(2)))
    requires RootCids(st.db) == {Cid(2)} && st.blocks == map[Cid(2) := [Cid(9)]]
    requires GenProof(st, x.hashing, w.contract, 0, x.c, w.proofType).Ok?
    ensures GenProof(WithoutUnused(st), x.hashing, w.contract, 0, x.c, w.proofType) == Err(CannotRead(NoChunk))
  {
    hide GenProof, WithoutUnused, RootCids, CidKey;
    ReportSparesIff(st, x.hashing, w.contract, 0, x.c, w.proofType);
    DanglingRoot(st.blocks);
    assert Cid(2) in Reads(st, Cid(2), 0, x.c, w.proofType) && !ReachedByRoot(st, Cid(2));
  }

  lemma DanglingRoot(blocks: Blocks)
    requires blocks == map[Cid(2) := [Cid(9)]]
    ensures !Collects(blocks, Cid(2))
  {
    ReachesSelf(blocks, Cid(2));
    ReachesStep(blocks, Cid(2), Cid(2), Cid(9));
  }

  lemma FolderInPlace(x: Setting, w: Event)
    requires x.Valid() && Succeeds(x, w) && IsFolder(w.proofType) && w.reply == FolderReply(2, [Cid(9)], w.data)
    ensures var st := Step(x, EMPTY_STORE, w);
            && TreeInPlace(x, st, w)
            && CidKey(w.contract.merkle) in st.db && st.db[CidKey(w.contract.merkle)] == CidValue(Some(Cid(2)))
            && RootCids(st.db) == {Cid(2)}
            && st.blocks == map[Cid(2) := [Cid(9)]] && Cid(2) in st.nodes && st.nodes[Cid(2)] == w.data
  {
    TreeAfterWrite(x, EMPTY_STORE, w);
    CidAfterStep(x, EMPTY_STORE, w, w.contract.merkle);
    StoreAfterWrite(x, EMPTY_STORE, w);
    WriteOutcome(x, EMPTY_STORE, w);
    hide FileRoot, Build, TreeKey, AfterAdd, TreeInPlace;
    var st := Step(x, EMPTY_STORE, w);
    assert CID_PREFIX <= CidKey(w.contract.merkle);
    assert Cid(2) in RootCids(st.db);
  }

  lemma FolderIsProvable(x: Setting, st: Store, w: Event)
    requires x.Valid() && Succeeds(x, w) && IsFolder(w.proofType) && |w.data| <= x.c && TreeInPlace(x, st, w)
    requires CidKey(w.contract.merkle) in st.db && st.db[CidKey(w.contract.merkle)] == CidValue(Some(Cid(2)))
    requires Cid(2) in st.blocks && Cid(2) in st.nodes && st.nodes[Cid(2)] == w.data
    ensures GenProof(st, x.hashing, w.contract, 0, x.c, w.proofType).Ok?
  {
    ChunkIsProvable(x.hashing.For(w.proofType), w.data, x.c, 0);
    assert Slice(w.data, x.c, 0) == w.data;
    hide FileRoot, GenerateMerkleProof, Build;
  }

  /* ---------- two writes ---------- */

  lemma TwoWrites(x: Setting, e: Event, f: Event)
    requires Succeeds(x, e) && Faithful(EMPTY_STORE, e.data, e.proofType, e.reply)
    requires Succeeds(x, f) && Faithful(Step(x, EMPTY_STORE, e), f.data, f.proofType, f.reply)
    ensures Exec(x, [e]) == Step(x, EMPTY_STORE, e) && Exec(x, [e, f]) == Step(x, Exec(x, [e]), f)
    ensures Live(x, [e, f]) == {e.contract, f.contract} && FaithfulRun(x, [e, f])
  {
    hide Step, Faithful, FileRoot;
    assert [e, f][..1] == [e] && [e][..0] == [];
    assert Exec(x, [e]) == Step(x, EMPTY_STORE, e);
    assert Live(x, [e]) == {e.contract};
    assert FaithfulRun(x, [e]);
  }

  /** The peer's answer for a file that is one block. */
  function BlockReply(root: nat, size: nat): AddReply {
    Added(Cid(root), map[Cid(root) := []], seq(size, _ => {Cid(root)}), None)
  }

  lemma BlockReplyFaithful(st: Store, data: Bytes, root: nat)
    requires data != [] && (Cid(root) in st.blocks ==> st.blocks[Cid(root)] == []) && Cid(root) !in st.nodes
    requires Cid(root) in st.contents ==> st.contents[Cid(root)] == FileNode(data, BlockReply(root, |data|).ways)
    ensures Faithful(st, data, 0, BlockReply(root, |data|))
  {
    var reply := BlockReply(root, |data|);
    ReachOfBlock(reply.blocks, Cid(root));
    assert reply.ways[0] == {Cid(root)};
    assert Ways(FileNode(data, reply.ways), 0, |data|) == {Cid(root)};
  }

  lemma ReachOfBlock(blocks: Blocks, c: Cid)
    requires c in blocks && blocks[c] == []
    ensures Collects(blocks, c) && ReachSet(blocks, c) == {c}
  {
    ReachesSelf(blocks, c);
    ReachSetUnique(blocks, c, {c});
  }

  /* ---------- one concrete setting ---------- */

  /** Digests that repeat one number: the length of a text, the first byte of a leaf or of a pair of nodes. */
  function ToyContent(text: string): Bytes {
    seq(32, _ => |text| % 256)
  }

  function ToyTree(size: nat): Bytes -> Bytes {
    bytes => seq(size, _ => if bytes == [] then 0 else bytes[0])
  }

  function Toy(scan: Bytes -> string): Setting {
    Setting(Hashing(Suite(ToyContent, ToyTree(64), 64), Suite(ToyContent, ToyTree(32), 32)), 2, scan)
  }

  function ToyMerkle(n: Byte): Bytes {
    seq(64, _ => n)
  }

  lemma ToyIsValid(scan: Bytes -> string)
    ensures Toy(scan).Valid()
  {
  }

  /** With these hashes the root repeats the length of the first leaf text. */
  lemma {:induction false} ToyRoot(scan: Bytes -> string, data: Bytes)
    requires 0 < |data| <= 4
    ensures FileRoot(Toy(scan).hashing.standard, data, 2) == ToyMerkle(1 + 2 * Min(|data|, 2))
  {
    var s, first := Toy(scan).hashing.standard, data[..Min(|data|, 2)];
    assert Chunks(data, 2)[0] == first;
    assert LeafText(0, first) == "0" + Hex(first);
    var leaves := FileLeaves(s, data, 2);
    assert leaves[0] == ToyContent(LeafText(0, first));
    hide FileLeaves, Hex, LeafText;
    if |data| > 2 {
      assert data[2..] != [] && |data[2..]| <= 2 && Chunks(data[2..], 2) == [data[2..]];
      assert |leaves| == 2;
    } else {
      assert |leaves| == 1;
    }
    ToyRootOf(s, leaves);
  }

  lemma ToyRootOf(s: Suite, leaves: seq<Bytes>)
    requires s.tree == ToyTree(64) && 1 <= |leaves| <= 2 && leaves[0] != []
    ensures Root(s, leaves) == seq(64, _ => leaves[0][0])
  {
    var w := Width(|leaves|);
    assert HeapNode(s, leaves, w, w) == s.tree(leaves[0]);
  }

  lemma ToyMerkleIsNoKey(n: Byte)
    ensures !StartsLikeKey(ToyMerkle(n))
  {
    assert Raw(ToyMerkle(n))[0] == Raw(ToyMerkle(n))[1] == n as char;
    assert TREE_PREFIX[0] != TREE_PREFIX[1] && CID_PREFIX[0] != CID_PREFIX[1];
  }

  /* ---------- one file for two contracts ---------- */

  /** One byte for alice and bob: the raw scan leaves bob's provable chunk unreadable. */
  lemma {:induction false} RawScanExample()
    ensures var x, a, b := Toy(Raw), Contract(ToyMerkle(3), "alice", 0), Contract(ToyMerkle(3), "bob", 0);
            var run := [Write([7], a, 0, BlockReply(1, 1)), Write([7], b, 0, BlockReply(1, 1))];
            && x.Valid() && FaithfulRun(x, run) && b in Live(x, run + [Delete(a)])
            && GenProof(Exec(x, run), x.hashing, b, 0, 2, 0).Ok?
            && GenProof(Exec(x, run + [Delete(a)]), x.hashing, b, 0, 2, 0) == Err(CannotRead(NoCid))
  {
    var x := Toy(Raw);
    var e := Write([7], Contract(ToyMerkle(3), "alice", 0), 0, BlockReply(1, 1));
    var f := Write([7], Contract(ToyMerkle(3), "bob", 0), 0, BlockReply(1, 1));
    ToyIsValid(Raw);
    ToyRoot(Raw, [7]);
    ToyMerkleIsNoKey(3);
    hide BlockReply, ToyMerkle, FileRoot, Exec, Live, FaithfulRun, GenProof, StartsLikeKey;
    RawScanRun(x, e, f);
  }

  lemma RawScanRun(x: Setting, e: Event, f: Event)
    requires x.Valid() && (forall m :: x.scan(m) == Raw(m))
    requires e.Write? && e.data != [] && e.proofType == 0 && e.reply == BlockReply(1, |e.data|)
    requires f.Write? && f.data == e.data && f.proofType == 0 && f.reply == e.reply && f.contract != e.contract
    requires e.contract.merkle == f.contract.merkle == FileRoot(x.hashing.standard, e.data, x.c)
    requires !StartsLikeKey(e.contract.merkle)
    ensures FaithfulRun(x, [e, f]) && f.contract in Live(x, [e, f] + [Delete(e.contract)])
    ensures GenProof(Exec(x, [e, f]), x.hashing, f.contract, 0, x.c, 0).Ok?
    ensures GenProof(Exec(x, [e, f] + [Delete(e.contract)]), x.hashing, f.contract, 0, x.c, 0) == Err(CannotRead(NoCid))
  {
    hide BlockReply, FileRoot, Exec, Live, FaithfulRun, Faithful, Step, GenProof, StartsLikeKey;
    TwoBlockWrites(x, e, f);
    TwoWrites(x, e, f);
    ChunkAt(f.data, x.c, 0);
    WrittenIsProvable(x, Exec(x, [e]), f, 0);
    RawScanOrphans(x, [e, f], e.contract, f.contract);
  }

  /** The second write finds the block of the first. */
  lemma TwoBlockWrites(x: Setting, e: Event, f: Event)
    requires x.Valid() && e.Write? && e.data != [] && e.proofType == 0 && e.reply == BlockReply(1, |e.data|)
    requires f.Write? && f.data == e.data && f.proofType == 0 && f.reply == e.reply
    requires e.contract.merkle == f.contract.merkle == FileRoot(x.hashing.standard, e.data, x.c)
    ensures Succeeds(x, e) && IsPlain(e) && Faithful(EMPTY_STORE, e.data, e.proofType, e.reply)
    ensures Succeeds(x, f) && IsPlain(f) && Faithful(Step(x, EMPTY_STORE, e), f.data, f.proofType, f.reply)
  {
    hide FileRoot, Step, Faithful;
    assert Succeeds(x, e) && Succeeds(x, f);
    BlockReplyFaithful(EMPTY_STORE, e.data, 1);
    StoreAfterWrite(x, EMPTY_STORE, e);
    BlockReplyFaithful(Step(x, EMPTY_STORE, e), f.data, 1);
  }

  /* ---------- a block of two files ---------- */

  /** The peer's answer for three bytes in two blocks under a root: the second block holds the third byte. */
  const PAIR_REPLY := Added(Cid(3), map[Cid(3) := [Cid(4), Cid(5)], Cid(4) := [], Cid(5) := []],
                            [{Cid(3), Cid(4)}, {Cid(3), Cid(4)}, {Cid(3), Cid(5)}], None)

  lemma PairReplyFaithful(st: Store, data: Bytes)
    requires |data| == 3 && st.blocks == map[Cid(5) := []] && Cid(3) !in st.contents && st.nodes == map[]
    ensures Faithful(st, data, 0, PAIR_REPLY)
  {
    var blocks, file := PAIR_REPLY.blocks, FileNode(data, PAIR_REPLY.ways);
    var all := {Cid(3), Cid(4), Cid(5)};
    ReachesSelf(blocks, Cid(3));
    ReachesStep(blocks, Cid(3), Cid(3), Cid(4));
    ReachesStep(blocks, Cid(3), Cid(3), Cid(5));
    ReachSetUnique(blocks, Cid(3), all);
    assert Ways(file, 0, 3) == all by {
      assert Cid(3) in file.ways[0] && Cid(4) in file.ways[0] && Cid(5) in file.ways[2];
    }
  }

  /** A one-block file and a file of which that block is the second chunk. */
  lemma PairWrites(x: Setting, e: Event, f: Event)
    requires x.Valid() && x.c == 2 && e.Write? && f.Write? && e.contract.merkle != f.contract.merkle
    requires |e.data| == 1 && e.proofType == 0 && e.reply == BlockReply(5, 1)
    requires |f.data| == 3 && f.proofType == 0 && f.reply == PAIR_REPLY
    requires e.contract.merkle == FileRoot(x.hashing.standard, e.data, x.c)
    requires f.contract.merkle == FileRoot(x.hashing.standard, f.data, x.c)
    ensures Succeeds(x, e) && IsPlain(e) && Faithful(EMPTY_STORE, e.data, e.proofType, e.reply)
    ensures Succeeds(x, f) && IsPlain(f) && Faithful(Step(x, EMPTY_STORE, e), f.data, f.proofType, f.reply)
    ensures var st := Step(x, Step(x, EMPTY_STORE, e), f);
            && CidAt(st.db, e.contract.merkle) == Some(Cid(5)) && CidAt(st.db, f.contract.merkle) == Some(Cid(3))
            && Cid(5) in st.blocks && st.blocks[Cid(5)] == []
            && Cid(3) in st.contents && st.contents[Cid(3)] == FileNode(f.data, PAIR_REPLY.ways)
  {
    hide FileRoot, Step, Faithful;
    assert Succeeds(x, e) && Succeeds(x, f);
    var st := Step(x, EMPTY_STORE, e);
    BlockReplyFaithful(EMPTY_STORE, e.data, 5);
    StoreAfterWrite(x, EMPTY_STORE, e);
    CidAfterStep(x, EMPTY_STORE, e, e.contract.merkle);
    PairReplyFaithful(st, f.data);
    StoreAfterWrite(x, st, f);
    CidAfterStep(x, st, f, f.contract.merkle);
    CidAfterStep(x, st, f, e.contract.merkle);
  }

  /** Of these two files, removing the first takes the block on the way to the second chunk of the other only. */
  lemma PairTouches(st: Store, data: Bytes)
    requires Cid(5) in st.blocks && st.blocks[Cid(5)] == []
    requires Cid(3) in st.contents && st.contents[Cid(3)] == FileNode(data, PAIR_REPLY.ways)
    ensures Collects(st.blocks, Cid(5))
    ensures !Touches(st, Cid(5), Cid(3), 0, 2, 0) && Touches(st, Cid(5), Cid(3), 1, 2, 0)
  {
    ReachOfBlock(st.blocks, Cid(5));
    var file := FileNode(data, PAIR_REPLY.ways);
    assert Cid(5) in file.ways[2] && Cid(5) in ChunkWays(file, 1, 2);
    assert Cid(5) !in ChunkWays(file, 0, 2);
  }

  /**
   * The byte 8 for alice and the bytes 7, 7, 8 for bob, stored in blocks of two bytes: with the hex
   * scan, deleting alice's contract leaves bob's first chunk provable and loses his second.
   */
  lemma {:induction false} SharedBlockExample()
    ensures var x, a, b := Toy(MerklePrefix), Contract(ToyMerkle(3), "alice", 0), Contract(ToyMerkle(5), "bob", 0);
            var run := [Write([8], a, 0, BlockReply(5, 1)), Write([7, 7, 8], b, 0, PAIR_REPLY)];
            var st, after := Exec(x, run), Exec(x, run + [Delete(a)]);
            && x.Valid() && FaithfulRun(x, run) && b in Live(x, run + [Delete(a)])
            && GenProof(st, x.hashing, b, 0, 2, 0).Ok? && GenProof(st, x.hashing, b, 1, 2, 0).Ok?
            && GenProof(after, x.hashing, b, 0, 2, 0) == GenProof(st, x.hashing, b, 0, 2, 0)
            && GenProof(after, x.hashing, b, 1, 2, 0) == Err(CannotRead(NoChunk))
  {
    var x := Toy(MerklePrefix);
    var e := Write([8], Contract(ToyMerkle(3), "alice", 0), 0, BlockReply(5, 1));
    var f := Write([7, 7, 8], Contract(ToyMerkle(5), "bob", 0), 0, PAIR_REPLY);
    ToyIsValid(MerklePrefix);
    ToyRoot(MerklePrefix, [8]);
    ToyRoot(MerklePrefix, [7, 7, 8]);
    assert ToyMerkle(3)[0] != ToyMerkle(5)[0];
    hide BlockReply, PAIR_REPLY, ToyMerkle, FileRoot, Exec, Live, FaithfulRun, GenProof;
    PairRun(x, e, f);
  }

  lemma PairRun(x: Setting, e: Event, f: Event)
    requires x.Valid() && (forall m :: x.scan(m) == MerklePrefix(m)) && x.c == 2
    requires e.Write? && |e.data| == 1 && e.proofType == 0 && e.reply == BlockReply(5, 1)
    requires f.Write? && |f.data| == 3 && f.proofType == 0 && f.reply == PAIR_REPLY
    requires e.contract.merkle == FileRoot(x.hashing.standard, e.data, x.c) != f.contract.merkle
    requires f.contract.merkle == FileRoot(x.hashing.standard, f.data, x.c)
    ensures var st, after := Exec(x, [e, f]), Exec(x, [e, f] + [Delete(e.contract)]);
            && FaithfulRun(x, [e, f]) && f.contract in Live(x, [e, f] + [Delete(e.contract)])
            && GenProof(st, x.hashing, f.contract, 0, 2, 0).Ok? && GenProof(st, x.hashing, f.contract, 1, 2, 0).Ok?
            && GenProof(after, x.hashing, f.contract, 0, 2, 0) == GenProof(st, x.hashing, f.contract, 0, 2, 0)
            && GenProof(after, x.hashing, f.contract, 1, 2, 0) == Err(CannotRead(NoChunk))
  {
    hide BlockReply, PAIR_REPLY, FileRoot, Exec, Live, FaithfulRun, Faithful, Step, GenProof, Touches, Collects;
    PairWrites(x, e, f);
    TwoWrites(x, e, f);
    PairTouches(Exec(x, [e, f]), f.data);
    PairChunk(x, e, f, 0);
    PairChunk(x, e, f, 1);
  }

  lemma PairChunk(x: Setting, e: Event, f: Event, i: nat)
    requires x.Valid() && (forall m :: x.scan(m) == MerklePrefix(m)) && x.c == 2 && i <= 1
    requires Succeeds(x, f) && IsPlain(f) && f.proofType == 0 && |f.data| == 3
    requires Exec(x, [e, f]) == Step(x, Exec(x, [e]), f) && Faithful(Exec(x, [e]), f.data, 0, f.reply)
    requires Live(x, [e, f]) == {e.contract, f.contract} && e.contract.merkle != f.contract.merkle
    requires var st := Exec(x, [e, f]);
             && CidAt(st.db, e.contract.merkle) == Some(Cid(5)) && CidAt(st.db, f.contract.merkle) == Some(Cid(3))
             && Collects(st.blocks, Cid(5)) && (Touches(st, Cid(5), Cid(3), i, 2, 0) <==> i == 1)
    ensures var st, after := Exec(x, [e, f]), Exec(x, [e, f] + [Delete(e.contract)]);
            && f.contract in Live(x, [e, f] + [Delete(e.contract)])
            && GenProof(st, x.hashing, f.contract, i, 2, 0).Ok?
            && GenProof(after, x.hashing, f.contract, i, 2, 0) ==
               if i == 1 then Err(CannotRead(NoChunk)) else GenProof(st, x.hashing, f.contract, i, 2, 0)
  {
    hide Exec, Live, Faithful, Step, GenProof, Touches, Collects, FileRoot;
    ChunkAt(f.data, 2, i);
    WrittenIsProvable(x, Exec(x, [e]), f, i);
    SharedBlockOrphans(x, [e, f], e.contract, f.contract, i, 0);
  }

  /* ---------- an empty folder over a file ---------- */

  function Ascii(text: string): Bytes
    requires forall i | 0 <= i < |text| :: text[i] < 128 as char
  {
    seq(|text|, i requires 0 <= i < |text| => text[i] as int)
  }

  /** What the node without data and links marshals to. */
  const EMPTY_NODE: Bytes := Ascii("{\"data\":null,\"links\":null}")

  /** The same two bytes as alice's file and as bob's folder, the empty node: her chunk becomes unreadable. */
  lemma {:induction false} FolderExample()
    ensures var x, a, b := Toy(MerklePrefix), Contract(ToyMerkle(5), "alice", 0), Contract(ToyMerkle(5), "bob", 0);
            var file := Write(Ascii("{}"), a, 0, BlockReply(1, 2));
            var run := [file, Write(Ascii("{}"), b, PROOF_TYPE_IPFS_FOLDER, FolderReply(2, [], EMPTY_NODE))];
            && x.Valid() && FaithfulRun(x, run) && a in Live(x, run)
            && GenProof(Exec(x, [file]), x.hashing, a, 0, 2, 0).Ok?
            && GenProof(Exec(x, run), x.hashing, a, 0, 2, 0) == Err(CannotRead(NoChunk))
  {
    var x, data := Toy(MerklePrefix), Ascii("{}");
    var e := Write(data, Contract(ToyMerkle(5), "alice", 0), 0, BlockReply(1, 2));
    var f := Write(data, Contract(ToyMerkle(5), "bob", 0), PROOF_TYPE_IPFS_FOLDER, FolderReply(2, [], EMPTY_NODE));
    ToyIsValid(MerklePrefix);
    ToyRoot(MerklePrefix, data);
    hide BlockReply, FolderReply, EMPTY_NODE, ToyMerkle, FileRoot, Exec, Live, FaithfulRun, GenProof;
    FolderRun(x, e, f);
  }

  lemma FolderRun(x: Setting, e: Event, f: Event)
    requires x.Valid() && e.Write? && e.data != [] && e.proofType == 0 && e.reply == BlockReply(1, |e.data|)
    requires f.Write? && f.data == e.data && IsFolder(f.proofType) && f.reply == FolderReply(2, [], EMPTY_NODE)
    requires e.contract.merkle == f.contract.merkle == FileRoot(x.hashing.standard, e.data, x.c)
    ensures FaithfulRun(x, [e, f]) && e.contract in Live(x, [e, f])
    ensures GenProof(Exec(x, [e]), x.hashing, e.contract, 0, x.c, 0).Ok?
    ensures GenProof(Exec(x, [e, f]), x.hashing, e.contract, 0, x.c, 0) == Err(CannotRead(NoChunk))
  {
    hide BlockReply, FolderReply, EMPTY_NODE, FileRoot, Exec, Live, FaithfulRun, Faithful, Step, GenProof;
    FolderOverFile(x, e, f);
    TwoWrites(x, e, f);
    assert [e] + [f] == [e, f];
    ChunkAt(e.data, x.c, 0);
    WrittenIsProvable(x, EMPTY_STORE, e, 0);
    FolderHidesFile(x, [e], f, e.contract, 0, 0);
  }

  lemma FolderOverFile(x: Setting, e: Event, f: Event)
    requires x.Valid() && e.Write? && e.data != [] && e.proofType == 0 && e.reply == BlockReply(1, |e.data|)
    requires f.Write? && f.data == e.data && IsFolder(f.proofType) && f.reply == FolderReply(2, [], EMPTY_NODE)
    requires e.contract.merkle == f.contract.merkle == FileRoot(x.hashing.standard, e.data, x.c)
    ensures Succeeds(x, e) && IsPlain(e) && Faithful(EMPTY_STORE, e.data, e.proofType, e.reply)
    ensures Succeeds(x, f) && Faithful(Step(x, EMPTY_STORE, e), f.data, f.proofType, f.reply)
  {
    hide FileRoot, Step, EMPTY_NODE;
    assert Succeeds(x, e) && Succeeds(x, f);
    BlockReplyFaithful(EMPTY_STORE, e.data, 1);
    StoreAfterWrite(x, EMPTY_STORE, e);
  }
}
