/** Which written files stay provable over every run of writes and deletes. */
module ProvableRuns {
  import opened Wrappers
  import opened Text
  import opened Keys
  import opened Merkle
  import opened FileTree
  import opened Dag
  import opened FileStore
  import opened DeleteTheorems
  import opened RunTheorems

  /** Each answer of the IPFS peer in the run is faithful to the store it met. */
  ghost predicate FaithfulRun(x: Setting, run: seq<Event>) {
    run == [] ||
    (var init, e := run[..|run| - 1], run[|run| - 1];
     FaithfulRun(x, init) && (e.Write? ==> Faithful(Exec(x, init), e.data, e.proofType, e.reply)))
  }

  predicate IsPlain(e: Event) {
    e.Write? && !IsFolder(e.proofType)
  }

  /* ---------- what a run hashed ---------- */

  /** Everything hashed by the successful writes of one of the two hash suites. */
  ghost function RunHashed(x: Setting, run: seq<Event>, blake3: bool): set<Preimage>
    requires x.c >= 1
  {
    if run == [] then {}
    else
      var before, e := RunHashed(x, run[..|run| - 1], blake3), run[|run| - 1];
      if Succeeds(x, e) && (e.proofType == PROOF_TYPE_BLAKE3) == blake3
      then before + Hashed(x.hashing.For(e.proofType), e.data, x.c)
      else before
  }

  ghost predicate RunBroken(x: Setting, run: seq<Event>)
    requires x.c >= 1
  {
    Broken(x.hashing.standard, RunHashed(x, run, false)) || Broken(x.hashing.blake3, RunHashed(x, run, true))
  }

  /** Two successful writes of one merkle wrote the same bytes with the same hashes. */
  lemma {:induction false} SameMerkleSameFile(x: Setting, run: seq<Event>, e: Event, f: Event)
    requires x.Valid() && !RunBroken(x, run)
    requires e in run && f in run && Succeeds(x, e) && Succeeds(x, f)
    requires e.contract.merkle == f.contract.merkle
    ensures e.data == f.data && x.hashing.For(e.proofType) == x.hashing.For(f.proofType)
  {
    BuiltRoot(x.hashing.For(e.proofType), e.data, x.c);
    BuiltRoot(x.hashing.For(f.proofType), f.data, x.c);
    var s := x.hashing.For(e.proofType);
    var blake3 := e.proofType == PROOF_TYPE_BLAKE3;
    RunHashedIncludes(x, run, e);
    RunHashedIncludes(x, run, f);
    RootDeterminesFile(s, x.c, e.data, f.data);
    if e.data != f.data {
      BrokenMonotone(s, Hashed(s, e.data, x.c) + Hashed(s, f.data, x.c), RunHashed(x, run, blake3));
      assert false;
    }
  }

  lemma {:induction false} RunHashedIncludes(x: Setting, run: seq<Event>, e: Event)
    requires x.c >= 1 && e in run && Succeeds(x, e)
    ensures Hashed(x.hashing.For(e.proofType), e.data, x.c) <=
            RunHashed(x, run, e.proofType == PROOF_TYPE_BLAKE3)
  {
    var init, last := run[..|run| - 1], run[|run| - 1];
    if e != last {
      assert run == init + [last];
      RunHashedIncludes(x, init, e);
    }
  }

  lemma RunBrokenMonotone(x: Setting, run: seq<Event>)
    requires x.c >= 1 && run != [] && RunBroken(x, run[..|run| - 1])
    ensures RunBroken(x, run)
  {
    var init := run[..|run| - 1];
    if Broken(x.hashing.standard, RunHashed(x, init, false)) {
      BrokenMonotone(x.hashing.standard, RunHashed(x, init, false), RunHashed(x, run, false));
    } else {
      BrokenMonotone(x.hashing.blake3, RunHashed(x, init, true), RunHashed(x, run, true));
    }
  }

  /* ---------- live writes ---------- */

  ghost function LiveWritesAfter(x: Setting, before: set<Event>, e: Event): set<Event> {
    if e.Delete? then set w | w in before && w.contract != e.contract
    else if Succeeds(x, e) then before + {e}
    else before
  }

  /** The successful writes whose contract was not deleted since. */
  ghost function LiveWrites(x: Setting, run: seq<Event>): set<Event> {
    if run == [] then {} else LiveWritesAfter(x, LiveWrites(x, run[..|run| - 1]), run[|run| - 1])
  }

  /** The last successful write of a merkle. */
  function LastWriter(x: Setting, run: seq<Event>, merkle: Bytes): Option<Event> {
    if run == [] then None
    else
      var e := run[|run| - 1];
      if Succeeds(x, e) && e.contract.merkle == merkle then Some(e) else LastWriter(x, run[..|run| - 1], merkle)
  }

  /** The contracts of the live writes are the live contracts. */
  lemma {:induction false} LiveWritesAreLive(x: Setting, run: seq<Event>)
    ensures forall e | e in LiveWrites(x, run) :: e in run && Succeeds(x, e) && e.contract in Live(x, run)
    ensures forall c | c in Live(x, run) :: exists e | e in LiveWrites(x, run) :: e.contract == c
  {
    if run != [] {
      var init, last := run[..|run| - 1], run[|run| - 1];
      LiveWritesAreLive(x, init);
      assert run == init + [last];
      forall c | c in Live(x, run)
        ensures exists e | e in LiveWrites(x, run) :: e.contract == c
      {
        if c in Live(x, init) {
          var e :| e in LiveWrites(x, init) && e.contract == c;
          assert e in LiveWrites(x, run);
        } else {
          assert last in LiveWrites(x, run) && last.contract == c;
        }
      }
    }
  }

  lemma {:induction false} LastWriterInRun(x: Setting, run: seq<Event>, merkle: Bytes)
    ensures LastWriter(x, run, merkle).Some? ==>
              var w := LastWriter(x, run, merkle).value;
              w in run && Succeeds(x, w) && w.contract.merkle == merkle
  {
    if run != [] {
      LastWriterInRun(x, run[..|run| - 1], merkle);
    }
  }

  /* ---------- what a run leaves behind of a write ---------- */

  /** The store after a successful write, up to its two entries. */
  lemma StoreAfterWrite(x: Setting, st: Store, e: Event)
    requires x.Valid() && Succeeds(x, e)
    ensures Step(x, st, e).blocks == st.blocks + e.reply.blocks
    ensures Step(x, st, e).contents == if IsFolder(e.proofType) then st.contents
                                       else st.contents[e.reply.root := FileNode(e.data, e.reply.ways)]
    ensures Step(x, st, e).nodes == if e.reply.json.Some? then st.nodes[e.reply.root := e.reply.json.value] else st.nodes
  {
    WriteOutcome(x, st, e);
  }

  lemma FailedWrite(x: Setting, st: Store, e: Event)
    requires x.Valid() && e.Write? && !Succeeds(x, e)
    ensures Step(x, st, e) == st
  {
    WriteOutcome(x, st, e);
  }

  ghost predicate TreeInPlace(x: Setting, st: Store, e: Event)
    requires Succeeds(x, e)
  {
    var k := TreeKey(e.contract);
    k in st.db && st.db[k] == TreeValue(Build(x.hashing.For(e.proofType), e.data, x.c).value.tree)
  }

  lemma TreeAfterWrite(x: Setting, st: Store, e: Event)
    requires x.Valid() && Succeeds(x, e)
    ensures TreeInPlace(x, Step(x, st, e), e)
  {
    WriteOutcome(x, st, e);
    TreeKeyIsNoCidKey(e.contract, e.contract.merkle);
    hide Build, AfterAdd;
  }

  lemma TreeAfterStep(x: Setting, st: Store, n: Event, e: Event)
    requires x.Valid() && Succeeds(x, e) && TreeInPlace(x, st, e)
    requires n.Delete? ==> n.contract != e.contract
    requires Succeeds(x, n) && n.contract == e.contract ==>
               n.data == e.data && x.hashing.For(n.proofType) == x.hashing.For(e.proofType)
    ensures TreeInPlace(x, Step(x, st, n), e)
  {
    if n.Delete? {
      hide Build;
      OtherEntriesAfterDelete(st, x.scan(n.contract.merkle), n.contract, e.contract);
    } else if n.contract == e.contract && Succeeds(x, n) {
      TreeAfterWrite(x, st, n);
    } else if Succeeds(x, n) {
      hide Build, AfterAdd;
      WriteOutcome(x, st, n);
      KeysApart(n.contract, e.contract);
    } else {
      FailedWrite(x, st, n);
    }
  }

  /** The tree of a live write stays in place, whatever the deletes scan for and remove. */
  lemma {:induction false} LiveTreeInPlace(x: Setting, run: seq<Event>, e: Event)
    requires x.Valid() && !RunBroken(x, run) && e in LiveWrites(x, run)
    ensures e in run && Succeeds(x, e) && TreeInPlace(x, Exec(x, run), e)
  {
    hide RunBroken, Step, TreeInPlace, FileRoot;
    LiveWritesAreLive(x, run);
    var init, last := run[..|run| - 1], run[|run| - 1];
    if e == last {
      TreeAfterWrite(x, Exec(x, init), last);
    } else {
      if RunBroken(x, init) {
        RunBrokenMonotone(x, run);
      }
      LiveTreeInPlace(x, init, e);
      if Succeeds(x, last) && last.contract == e.contract {
        SameMerkleSameFile(x, run, last, e);
      }
      TreeAfterStep(x, Exec(x, init), last, e);
    }
  }

  /** What a step does to the CID entry of a merkle. */
  lemma CidAfterStep(x: Setting, st: Store, n: Event, merkle: Bytes)
    requires x.Valid()
    ensures var k, after := CidKey(merkle), Step(x, st, n);
            && (Succeeds(x, n) && n.contract.merkle == merkle ==>
                  k in after.db && after.db[k] == CidValue(Some(n.reply.root)))
            && (!(Succeeds(x, n) && n.contract.merkle == merkle) ==>
                  && (k in after.db ==> k in st.db && after.db[k] == st.db[k])
                  && (n.Write? && k in st.db ==> k in after.db))
  {
    if n.Delete? {
      StoreAfterDelete(st, x.scan(n.contract.merkle), n.contract);
      hide RemoveContract, TreeKey, CidKey;
    } else {
      WriteOutcome(x, st, n);
      TreeKeyIsNoCidKey(n.contract, merkle);
      if CidKey(merkle) == CidKey(n.contract.merkle) {
        CidKeyInjective(merkle, n.contract.merkle);
      }
      hide TreeKey, CidKey, AfterAdd, Build, FileRoot, FileStore.WriteFile;
    }
  }

  /** The CID entry of a merkle is that of its last writer, as long as no delete drops it. */
  lemma {:induction false} CidIsLastWriters(x: Setting, run: seq<Event>, merkle: Bytes)
    requires x.Valid()
    ensures var k, w := CidKey(merkle), LastWriter(x, run, merkle);
            && (w.Some? ==> w.value in run && Succeeds(x, w.value) && w.value.contract.merkle == merkle)
            && (k in Exec(x, run).db ==> w.Some? && Exec(x, run).db[k] == CidValue(Some(w.value.reply.root)))
  {
    LastWriterInRun(x, run, merkle);
    if run != [] {
      hide Step, CidKey, FileRoot;
      CidIsLastWriters(x, run[..|run| - 1], merkle);
      CidAfterStep(x, Exec(x, run[..|run| - 1]), run[|run| - 1], merkle);
    }
  }

  /** The root of the write stands for its file, or for a folder and no file. */
  ghost predicate Recorded(st: Store, w: Event)
    requires w.Write? && w.reply.Added?
  {
    if IsFolder(w.proofType) then w.reply.root in st.nodes && w.reply.root !in st.contents
    else w.reply.root in st.contents && st.contents[w.reply.root] == FileNode(w.data, w.reply.ways)
  }

  lemma RecordedAfterStep(x: Setting, st: Store, n: Event, w: Event)
    requires x.Valid() && Succeeds(x, w) && (w == n || Recorded(st, w))
    requires n.Write? ==> Faithful(st, n.data, n.proofType, n.reply)
    ensures Recorded(Step(x, st, n), w)
  {
    hide FileRoot, Collects, ReachSet, Ways;
    if n.Delete? {
      StoreAfterDelete(st, x.scan(n.contract.merkle), n.contract);
    } else if Succeeds(x, n) {
      StoreAfterWrite(x, st, n);
    } else {
      FailedWrite(x, st, n);
    }
  }

  lemma {:induction false} WritesRecorded(x: Setting, run: seq<Event>, w: Event)
    requires x.Valid() && FaithfulRun(x, run) && w in run && Succeeds(x, w)
    ensures Recorded(Exec(x, run), w)
  {
    hide Recorded, Faithful, Step, FileRoot;
    var init, last := run[..|run| - 1], run[|run| - 1];
    if w != last {
      assert run == init + [last];
      WritesRecorded(x, init, w);
    }
    RecordedAfterStep(x, Exec(x, init), last, w);
  }

  /* ---------- provability ---------- */

  /** The proof of chunk i that GenProof owes for a file: the right bytes and a path to the merkle. */
  ghost predicate Provable(x: Setting, st: Store, e: Event, i: nat)
    requires Succeeds(x, e) && i * x.c < |e.data|
  {
    var s := x.hashing.For(e.proofType);
    match GenProof(st, x.hashing, e.contract, i, x.c, e.proofType)
    case Err(_) => false
    case Ok((proof, chunk)) =>
      && chunk == Slice(e.data, x.c, i)
      && Verify(s, s.content(LeafText(i, chunk)), proof, e.contract.merkle)
  }

  /** The merkle has its CID entry, w wrote a file, and the blocks on the way to chunk i of it are stored. */
  ghost predicate Readable(x: Setting, st: Store, w: Event, i: nat)
    requires Succeeds(x, w)
  {
    && CidKey(w.contract.merkle) in st.db
    && IsPlain(w)
    && ChunkWays(FileNode(w.data, w.reply.ways), i, x.c) <= st.blocks.Keys
  }

  /** A chunk whose tree is in place is provable exactly if it is readable through the merkle's CID entry. */
  lemma {:induction false} ProvableIffReadable(x: Setting, st: Store, e: Event, w: Event, i: nat)
    requires x.Valid() && Succeeds(x, e) && Succeeds(x, w) && TreeInPlace(x, st, e) && Recorded(st, w)
    requires IsPlain(e) && e.data == w.data && e.contract.merkle == w.contract.merkle && i * x.c < |e.data|
    requires var k := CidKey(e.contract.merkle); k in st.db ==> st.db[k] == CidValue(Some(w.reply.root))
    ensures Provable(x, st, e, i) <==> Readable(x, st, w, i)
  {
    hide ChunkWays, FileRoot, TreeKey, CidKey;
    ChunkIsProvable(x.hashing.For(e.proofType), e.data, x.c, i);
    BuiltRoot(x.hashing.For(e.proofType), e.data, x.c);
  }

  /** Straight after a faithful write of a file every chunk of it is readable. */
  lemma ReadableAfterWrite(x: Setting, st: Store, w: Event, i: nat)
    requires x.Valid() && Succeeds(x, w) && IsPlain(w) && Faithful(st, w.data, w.proofType, w.reply)
    ensures Readable(x, Step(x, st, w), w, i)
  {
    CidAfterStep(x, st, w, w.contract.merkle);
    StoreAfterWrite(x, st, w);
    WaysAreAdded(st, w.data, w.proofType, w.reply, i, x.c);
    hide Step, FileRoot, Faithful, ChunkWays;
  }

  lemma WaysAreAdded(st: Store, data: Bytes, proofType: int, reply: AddReply, i: nat, c: nat)
    requires reply.Added? && !IsFolder(proofType) && data != [] && Faithful(st, data, proofType, reply)
    ensures ChunkWays(FileNode(data, reply.ways), i, c) <= reply.blocks.Keys
  {
    var file := FileNode(data, reply.ways);
    assert ChunkWays(file, i, c) <= Ways(file, 0, |data|);
    hide Ways, ChunkWays;
  }

  lemma {:induction false} WrittenIsProvable(x: Setting, st: Store, e: Event, i: nat)
    requires x.Valid() && Succeeds(x, e) && IsPlain(e) && Faithful(st, e.data, e.proofType, e.reply)
    requires i < NumChunks(|e.data|, x.c)
    ensures i * x.c < |e.data| && Provable(x, Step(x, st, e), e, i)
  {
    hide Step, FileRoot, Faithful, TreeInPlace, Recorded, Readable;
    ChunkAt(e.data, x.c, i);
    TreeAfterWrite(x, st, e);
    CidAfterStep(x, st, e, e.contract.merkle);
    RecordedAfterStep(x, st, e, e);
    ReadableAfterWrite(x, st, e, i);
    ProvableIffReadable(x, Step(x, st, e), e, e, i);
  }

  /**
   * After every run of writes and deletes, whatever the deletes scan for and remove, a chunk of a
   * live file is provable exactly if its merkle still has its CID entry, the last write of the
   * merkle was of a file and not of a folder, and the blocks on the way to the chunk are stored,
   * or the run hashed a colliding pair or a preimage of the padding node.
   */
  lemma {:induction false} LiveChunkProvableIff(x: Setting, run: seq<Event>, e: Event, i: nat)
    requires x.Valid() && FaithfulRun(x, run)
    requires e in LiveWrites(x, run) && IsPlain(e) && i < NumChunks(|e.data|, x.c)
    ensures Succeeds(x, e) && i * x.c < |e.data| && LastWriter(x, run, e.contract.merkle).Some?
    ensures var w := LastWriter(x, run, e.contract.merkle).value;
            Succeeds(x, w) &&
            (RunBroken(x, run) || (Provable(x, Exec(x, run), e, i) <==> Readable(x, Exec(x, run), w, i)))
  {
    hide Exec, RunBroken, TreeInPlace, Recorded, Readable, Provable, LiveWrites, FaithfulRun, FileRoot;
    LiveWritesAreLive(x, run);
    ChunkAt(e.data, x.c, i);
    WriterExists(x, run, e);
    var w := LastWriter(x, run, e.contract.merkle).value;
    CidIsLastWriters(x, run, e.contract.merkle);
    if !RunBroken(x, run) {
      LiveTreeInPlace(x, run, e);
      WritesRecorded(x, run, w);
      SameMerkleSameFile(x, run, e, w);
      ProvableIffReadable(x, Exec(x, run), e, w, i);
    }
  }

  lemma {:induction false} WriterExists(x: Setting, run: seq<Event>, e: Event)
    requires e in run && Succeeds(x, e)
    ensures LastWriter(x, run, e.contract.merkle).Some?
  {
    var init, last := run[..|run| - 1], run[|run| - 1];
    if e != last {
      assert run == init + [last];
      WriterExists(x, init, e);
    }
  }

  /* ---------- deletes that spare a chunk ---------- */

  /** Each delete of another contract since the last write of e's merkle spares chunk i of e's file. */
  ghost predicate Spared(x: Setting, run: seq<Event>, e: Event, i: nat)
    requires e.Write?
  {
    run == [] ||
    (var init, last := run[..|run| - 1], run[|run| - 1];
     || (Succeeds(x, last) && last.contract.merkle == e.contract.merkle)
     || (Spared(x, init, e, i) &&
         (last.Delete? && last.contract != e.contract ==>
            Spares(Exec(x, init), x.scan(last.contract.merkle), last.contract, e.contract, i, x.c, e.proofType))))
  }

  /** A readable chunk stays so over a write of another merkle and over a delete that spares it. */
  lemma ReadableAfterStep(x: Setting, st: Store, n: Event, e: Event, w: Event, i: nat)
    requires x.Valid() && Succeeds(x, w) && Readable(x, st, w, i) && Recorded(st, w)
    requires IsPlain(e) && w.contract.merkle == e.contract.merkle
    requires st.db[CidKey(w.contract.merkle)] == CidValue(Some(w.reply.root))
    requires !(Succeeds(x, n) && n.contract.merkle == w.contract.merkle)
    requires n.Delete? ==> n.contract != e.contract &&
                           Spares(st, x.scan(n.contract.merkle), n.contract, e.contract, i, x.c, e.proofType)
    ensures Readable(x, Step(x, st, n), w, i)
  {
    hide ChunkWays, FileRoot, ReachSet, Collects, HasPrefix;
    if n.Delete? {
      StoreAfterDelete(st, x.scan(n.contract.merkle), n.contract);
      OtherEntriesAfterDelete(st, x.scan(n.contract.merkle), n.contract, e.contract);
      hide RemoveContract, TreeKey, CidKey;
    } else if Succeeds(x, n) {
      CidAfterStep(x, st, n, w.contract.merkle);
      StoreAfterWrite(x, st, n);
      hide Step;
    } else {
      FailedWrite(x, st, n);
      hide Step;
    }
  }

  lemma {:induction false} SparedIsReadable(x: Setting, run: seq<Event>, e: Event, w: Event, i: nat)
    requires x.Valid() && FaithfulRun(x, run) && e in LiveWrites(x, run) && IsPlain(e) && Spared(x, run, e, i)
    requires LastWriter(x, run, e.contract.merkle) == Some(w) && IsPlain(w)
    ensures Succeeds(x, w) && w.contract.merkle == e.contract.merkle && Readable(x, Exec(x, run), w, i)
  {
    hide Readable, Recorded, Faithful, Step, FileRoot, Spares;
    LiveWritesAreLive(x, run);
    CidIsLastWriters(x, run, e.contract.merkle);
    var init, last := run[..|run| - 1], run[|run| - 1];
    if Succeeds(x, last) && last.contract.merkle == e.contract.merkle {
      ReadableAfterWrite(x, Exec(x, init), last, i);
    } else {
      SparedIsReadable(x, init, e, w, i);
      CidIsLastWriters(x, init, e.contract.merkle);
      WritesRecorded(x, init, w);
      EntryOfReadable(x, Exec(x, init), w, i);
      ReadableAfterStep(x, Exec(x, init), last, e, w, i);
    }
  }

  lemma EntryOfReadable(x: Setting, st: Store, w: Event, i: nat)
    requires Succeeds(x, w) && Readable(x, st, w, i)
    ensures CidKey(w.contract.merkle) in st.db
  {
  }

  /**
   * So if the deletes since the last write of its merkle spare it, a chunk of a live file is
   * provable exactly if that write was of a file and not of a folder, or the run hashed a
   * colliding pair. What the deletes do to other files does not matter.
   */
  lemma {:induction false} LiveFileProvableIff(x: Setting, run: seq<Event>, e: Event, i: nat)
    requires x.Valid() && FaithfulRun(x, run)
    requires e in LiveWrites(x, run) && IsPlain(e) && i < NumChunks(|e.data|, x.c) && Spared(x, run, e, i)
    ensures Succeeds(x, e) && i * x.c < |e.data|
    ensures RunBroken(x, run) ||
            (LastWriter(x, run, e.contract.merkle).Some? &&
             (Provable(x, Exec(x, run), e, i) <==> IsPlain(LastWriter(x, run, e.contract.merkle).value)))
  {
    hide Exec, Live, LiveWrites, RunBroken, Provable, FaithfulRun, Spared, FileRoot, LastWriter;
    LiveChunkProvableIff(x, run, e, i);
    var w := LastWriter(x, run, e.contract.merkle).value;
    if IsPlain(w) {
      SparedIsReadable(x, run, e, w, i);
    }
  }

  /* ---------- runs of writes ---------- */

  ghost predicate AllWrites(run: seq<Event>) {
    forall i | 0 <= i < |run| :: run[i].Write?
  }

  lemma {:induction false} WritesStayLive(x: Setting, run: seq<Event>, e: Event, i: nat)
    requires AllWrites(run) && e.Write?
    ensures Spared(x, run, e, i)
    ensures e in run && Succeeds(x, e) ==> e in LiveWrites(x, run)
  {
    if run != [] {
      var init, last := run[..|run| - 1], run[|run| - 1];
      assert run == init + [last] && last.Write?;
      WritesStayLive(x, init, e, i);
    }
  }

  /**
   * After every run of writes, of many owners, starts and IPFS parameters per merkle, each chunk of
   * each written file is provable exactly if the last write of its merkle was of a file, although
   * every write replaced the merkle's CID entry, or the run hashed a colliding pair.
   */
  lemma {:induction false} RunIsProvable(x: Setting, run: seq<Event>, e: Event, i: nat)
    requires x.Valid() && AllWrites(run) && FaithfulRun(x, run)
    requires e in run && Succeeds(x, e) && IsPlain(e) && i < NumChunks(|e.data|, x.c)
    ensures i * x.c < |e.data|
    ensures RunBroken(x, run) ||
            (LastWriter(x, run, e.contract.merkle).Some? &&
             (Provable(x, Exec(x, run), e, i) <==> IsPlain(LastWriter(x, run, e.contract.merkle).value)))
  {
    WritesStayLive(x, run, e, i);
    LiveFileProvableIff(x, run, e, i);
  }

  /* ---------- runs with the hex scan ---------- */

  /** No delete of another merkle since the last write of e's merkle removes a block on the way to chunk i. */
  ghost predicate DisjointFor(x: Setting, run: seq<Event>, e: Event, i: nat)
    requires e.Write?
  {
    run == [] ||
    (var init, last := run[..|run| - 1], run[|run| - 1];
     || (Succeeds(x, last) && last.contract.merkle == e.contract.merkle)
     || (DisjointFor(x, init, e, i) &&
         (last.Delete? && last.contract.merkle != e.contract.merkle ==>
            var st := Exec(x, init);
            var mine, theirs := Removable(st, last.contract.merkle), CidAt(st.db, e.contract.merkle);
            mine.Some? && theirs.Some? ==> !Touches(st, mine.value, theirs.value, i, x.c, e.proofType))))
  }

  /** With the scan over the hex tree prefix a live contract of the same merkle is always found. */
  lemma {:induction false} HexScanFinds(x: Setting, run: seq<Event>, c: Contract, w: Event)
    requires x.Valid() && w in LiveWrites(x, run) && w.Write? && w.contract != c && w.contract.merkle == c.merkle
    ensures HasPrefix(Exec(x, run).db - {TreeKey(c)}, MerklePrefix(c.merkle))
  {
    LiveWritesAreLive(x, run);
    TreeKeysAreLive(x, run);
    MerklePrefixSelects(c.merkle, w.contract);
    KeysApart(w.contract, c);
    assert TreeKey(w.contract) in Exec(x, run).db - {TreeKey(c)};
  }

  lemma {:induction false} DisjointIsSpared(x: Setting, run: seq<Event>, e: Event, i: nat)
    requires x.Valid() && (forall m :: x.scan(m) == MerklePrefix(m))
    requires e in LiveWrites(x, run) && e.Write? && DisjointFor(x, run, e, i)
    ensures Spared(x, run, e, i)
  {
    hide Exec, Touches, HasPrefix, MerklePrefix, FileRoot, Removable;
    var init, last := run[..|run| - 1], run[|run| - 1];
    if !(Succeeds(x, last) && last.contract.merkle == e.contract.merkle) {
      LiveWritesAreLive(x, run);
      DisjointIsSpared(x, init, e, i);
      if last.Delete? && last.contract.merkle == e.contract.merkle {
        HexScanFinds(x, init, last.contract, e);
      }
    }
  }

  /**
   * With the scan that the comment in removeContract describes a chunk of a live file is provable
   * exactly if the last write of its merkle was of a file and the blocks on the way to the chunk are
   * stored, or the run hashed a colliding pair.
   */
  lemma {:induction false} HexScanProvableIff(x: Setting, run: seq<Event>, e: Event, i: nat)
    requires x.Valid() && (forall m :: x.scan(m) == MerklePrefix(m)) && FaithfulRun(x, run)
    requires e in LiveWrites(x, run) && IsPlain(e) && i < NumChunks(|e.data|, x.c)
    ensures Succeeds(x, e) && i * x.c < |e.data| && LastWriter(x, run, e.contract.merkle).Some?
    ensures var w := LastWriter(x, run, e.contract.merkle).value;
            Succeeds(x, w) &&
            (RunBroken(x, run) ||
             (Provable(x, Exec(x, run), e, i) <==>
              IsPlain(w) && ChunkWays(FileNode(w.data, w.reply.ways), i, x.c) <= Exec(x, run).blocks.Keys))
  {
    LiveChunkProvableIff(x, run, e, i);
    HexScanRunKeepsCids(x, run);
    TreeKeysAreLive(x, run);
    LiveWritesAreLive(x, run);
    hide Exec, Live, LiveWrites, RunBroken, Provable, FaithfulRun, FileRoot, ChunkWays;
    LastWriterInRun(x, run, e.contract.merkle);
    assert TreeKey(e.contract) in Exec(x, run).db;
  }

  /**
   * With that scan, after every run of writes and deletes, each live contract whose merkle was never
   * written as a folder has a write of which every chunk is provable that no delete of another
   * merkle took a block from, or the run hashed a colliding pair.
   */
  lemma {:induction false} HexScanRunIsProvable(x: Setting, run: seq<Event>, c: Contract) returns (e: Event)
    requires x.Valid() && (forall m :: x.scan(m) == MerklePrefix(m)) && FaithfulRun(x, run)
    requires c in Live(x, run) && forall w | w in run && Succeeds(x, w) && w.contract.merkle == c.merkle :: IsPlain(w)
    ensures e in LiveWrites(x, run) && e.contract == c && Succeeds(x, e)
    ensures RunBroken(x, run) ||
            forall i: nat | i < NumChunks(|e.data|, x.c) && DisjointFor(x, run, e, i) ::
              i * x.c < |e.data| && Provable(x, Exec(x, run), e, i)
  {
    hide Exec, RunBroken, Provable, FaithfulRun, FileRoot, DisjointFor;
    LiveWritesAreLive(x, run);
    e :| e in LiveWrites(x, run) && e.contract == c;
    LastWriterInRun(x, run, c.merkle);
    forall i: nat | i < NumChunks(|e.data|, x.c) && DisjointFor(x, run, e, i)
      ensures i * x.c < |e.data|
      ensures RunBroken(x, run) || Provable(x, Exec(x, run), e, i)
    {
      DisjointIsSpared(x, run, e, i);
      LiveFileProvableIff(x, run, e, i);
    }
  }
}
