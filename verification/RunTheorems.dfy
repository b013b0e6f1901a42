/** What holds after every run of writes and deletes that starts from an empty store. */
module RunTheorems {
  import opened Wrappers
  import opened Text
  import opened Keys
  import opened Merkle
  import opened FileTree
  import opened FileStore
  import opened FileSystems
  import opened DeleteTheorems

  datatype Event =
    | Write(data: Bytes, contract: Contract, proofType: int, reply: AddReply)
    | Delete(contract: Contract)

  /** What all steps of a run share: the hashes, the chunk size and how a delete scans. */
  datatype Setting = Setting(hashing: Hashing, c: nat, scan: Bytes -> string) {
    ghost predicate Valid() {
      hashing.Valid() && c >= 1
    }
  }

  /** Each write reads a fresh reader. */
  ghost function Step(x: Setting, st: Store, e: Event): Store {
    match e
    case Write(data, contract, proofType, reply) =>
      WriteFile(st, x.hashing, data, 0, contract, x.c, proofType, reply).0
    case Delete(contract) =>
      RemoveContract(st, x.scan(contract.merkle), contract).0
  }

  ghost function Exec(x: Setting, run: seq<Event>): Store {
    if run == [] then EMPTY_STORE else Step(x, Exec(x, run[..|run| - 1]), run[|run| - 1])
  }

  lemma ExecAppend(x: Setting, run: seq<Event>, e: Event)
    ensures Exec(x, run + [e]) == Step(x, Exec(x, run), e)
  {
    assert (run + [e])[..|run|] == run;
  }

  /** The write, of a file or of a folder, ends without an error. */
  predicate Succeeds(x: Setting, e: Event) {
    && e.Write? && e.reply.Added? && x.c >= 1 && e.data != []
    && FileRoot(x.hashing.For(e.proofType), e.data, x.c) == e.contract.merkle
  }

  lemma {:induction false} WriteOutcome(x: Setting, st: Store, e: Event)
    requires x.Valid() && e.Write?
    ensures var (after, r) := WriteFile(st, x.hashing, e.data, 0, e.contract, x.c, e.proofType, e.reply);
            && (r.Ok? <==> Succeeds(x, e))
            && (r.Err? ==> after == st)
            && (r.Ok? ==>
                  && r.value == Written(|e.data|, e.reply.root)
                  && after == AfterAdd(st, e.data, e.proofType, e.reply).(db :=
                       st.db[TreeKey(e.contract) := TreeValue(Build(x.hashing.For(e.proofType), e.data, x.c).value.tree)]
                            [CidKey(e.contract.merkle) := CidValue(Some(e.reply.root))]))
  {
    var s := x.hashing.For(e.proofType);
    assert e.data[0..] == e.data;
    if e.data != [] {
      BuiltRoot(s, e.data, x.c);
      if Hex(e.contract.merkle) == Hex(FileRoot(s, e.data, x.c)) {
        HexInjective(e.contract.merkle, FileRoot(s, e.data, x.c));
      }
    }
  }

  /* ---------- the listing ---------- */

  function LiveAfter(x: Setting, live: set<Contract>, e: Event): set<Contract> {
    if e.Delete? then live - {e.contract}
    else if Succeeds(x, e) then live + {e.contract}
    else live
  }

  /** The contracts written and not deleted since. */
  function Live(x: Setting, run: seq<Event>): set<Contract> {
    if run == [] then {} else LiveAfter(x, Live(x, run[..|run| - 1]), run[|run| - 1])
  }

  /** The tree keys are those of these contracts; every other key is a CID key. */
  ghost predicate KeysAre(db: map<string, Value>, live: set<Contract>) {
    && (forall c: Contract :: TreeKey(c) in db <==> c in live)
    && (forall k | k in db :: IsTreeKey(k) || IsCidKey(k))
  }

  ghost predicate IsTreeKey(k: string) {
    exists c: Contract :: k == TreeKey(c)
  }

  ghost predicate IsCidKey(k: string) {
    exists m: Bytes :: k == CidKey(m)
  }

  lemma KeysAfterWrite(db: map<string, Value>, live: set<Contract>, c: Contract, tree: Value, cid: Value)
    requires KeysAre(db, live)
    ensures KeysAre(db[TreeKey(c) := tree][CidKey(c.merkle) := cid], live + {c})
  {
    var after := db[TreeKey(c) := tree][CidKey(c.merkle) := cid];
    forall d: Contract
      ensures TreeKey(d) in after <==> d in live + {c}
    {
      TreeKeyIsNoCidKey(d, c.merkle);
      if TreeKey(d) == TreeKey(c) {
        TreeKeyInjective(d, c);
      }
    }
    assert IsTreeKey(TreeKey(c)) && IsCidKey(CidKey(c.merkle));
  }

  lemma {:induction false} KeysAfterDelete(db: map<string, Value>, live: set<Contract>, c: Contract, more: set<string>)
    requires KeysAre(db, live) && more <= {CidKey(c.merkle)}
    ensures KeysAre(db - {TreeKey(c)} - more, live - {c})
  {
    forall d: Contract
      ensures TreeKey(d) in db - {TreeKey(c)} - more <==> d in live - {c}
    {
      TreeKeyIsNoCidKey(d, c.merkle);
      if TreeKey(d) == TreeKey(c) {
        TreeKeyInjective(d, c);
      }
    }
  }

  lemma {:induction false} KeysAfterStep(x: Setting, st: Store, live: set<Contract>, e: Event)
    requires x.Valid() && KeysAre(st.db, live)
    ensures KeysAre(Step(x, st, e).db, LiveAfter(x, live, e))
  {
    hide KeysAre, TreeKey, CidKey;
    match e
    case Write(data, c, proofType, reply) =>
      WriteOutcome(x, st, e);
      if Succeeds(x, e) {
        var tree := Build(x.hashing.For(proofType), data, x.c).value.tree;
        KeysAfterWrite(st.db, live, c, TreeValue(tree), CidValue(Some(reply.root)));
      }
    case Delete(c) =>
      KeysAfterDelete(st.db, live, c, {});
      KeysAfterDelete(st.db, live, c, {CidKey(c.merkle)});
      assert st.db - {TreeKey(c)} - {} == st.db - {TreeKey(c)};
  }

  lemma {:induction false} TreeKeysAreLive(x: Setting, run: seq<Event>)
    requires x.Valid()
    ensures KeysAre(Exec(x, run).db, Live(x, run))
  {
    if run != [] {
      hide KeysAre, Step, LiveAfter;
      var init := run[..|run| - 1];
      TreeKeysAreLive(x, init);
      KeysAfterStep(x, Exec(x, init), Live(x, init), run[|run| - 1]);
    }
  }

  /**
   * After every run, whatever the deletes scanned for, ListFiles and ProcessFiles end without an
   * error and give exactly the live contracts, each once, if and only if no live owner has a slash.
   */
  lemma {:induction false} ListedExactlyLive(x: Setting, run: seq<Event>, listed: seq<Contract>, err: Option<SplitError>)
    requires x.Valid() && Listing(Exec(x, run).db, listed, err)
    ensures (err == None && NoDuplicates(listed) && forall c :: c in listed <==> c in Live(x, run)) <==>
            forall c | c in Live(x, run) :: '/' !in c.owner
  {
    var keys :| ScanOf(Exec(x, run).db, TREE_PREFIX, keys) && ParsedUpTo(keys, listed) && StopsAt(keys, listed, err);
    if forall c | c in Live(x, run) :: '/' !in c.owner {
      KeysListLive(x, run, keys, listed);
    }
    forall i | 0 <= i < |listed|
      ensures '/' !in listed[i].owner
    {
      ParsedOwnerHasNoSlash(keys[i][|TREE_PREFIX|..]);
    }
  }

  lemma ParsedOwnerHasNoSlash(key: string)
    ensures SplitMerkle(key).Ok? ==> '/' !in SplitMerkle(key).value.owner
  {
    SplitFieldHasNoSlash(key, 1);
  }

  lemma {:induction false} KeysListLive(x: Setting, run: seq<Event>, keys: seq<string>, listed: seq<Contract>)
    requires x.Valid()
    requires forall c | c in Live(x, run) :: '/' !in c.owner
    requires ScanOf(Exec(x, run).db, TREE_PREFIX, keys) && ParsedUpTo(keys, listed)
    ensures forall i | 0 <= i < |keys| :: TREE_PREFIX <= keys[i] && SplitMerkle(keys[i][|TREE_PREFIX|..]).Ok?
    ensures |listed| == |keys| ==> NoDuplicates(listed) && forall c :: c in listed <==> c in Live(x, run)
  {
    hide SplitMerkle, Live, Exec;
    forall i | 0 <= i < |keys|
      ensures SplitMerkle(keys[i][|TREE_PREFIX|..]).Ok?
      ensures SplitMerkle(keys[i][|TREE_PREFIX|..]).value in Live(x, run)
      ensures keys[i] == TreeKey(SplitMerkle(keys[i][|TREE_PREFIX|..]).value)
    {
      var c := KeyOfLive(x, run, keys[i]);
    }
    if |listed| == |keys| {
      forall c | c in Live(x, run)
        ensures c in listed
      {
        TreeKeysAreLive(x, run);
        TreeKeyIsNoCidKey(c, []);
        var i :| 0 <= i < |keys| && keys[i] == TreeKey(c);
        SplitMerkleInvertsKeyBody(c);
        assert keys[i][|TREE_PREFIX|..] == KeyBody(c);
        assert listed[i] == c;
      }
    }
  }

  lemma KeyOfLive(x: Setting, run: seq<Event>, k: string) returns (c: Contract)
    requires x.Valid()
    requires forall c | c in Live(x, run) :: '/' !in c.owner
    requires k in Exec(x, run).db && TREE_PREFIX <= k
    ensures c in Live(x, run) && k == TreeKey(c)
    ensures SplitMerkle(k[|TREE_PREFIX|..]) == Ok(c)
  {
    TreeKeysAreLive(x, run);
    assert IsTreeKey(k) by {
      forall m: Bytes
        ensures k != CidKey(m)
      {
        TreeKeyIsNoCidKey(Contract([], "", 0), m);
      }
    }
    c :| k == TreeKey(c);
    SplitMerkleInvertsKeyBody(c);
    assert k[|TREE_PREFIX|..] == KeyBody(c);
  }

  /* ---------- the entries ---------- */

  /** A tree entry after a step is the one just written, or was there before. */
  lemma TreeEntryOrigin(x: Setting, st: Store, e: Event, c: Contract)
    requires x.Valid() && TreeKey(c) in Step(x, st, e).db
    ensures var v := Step(x, st, e).db[TreeKey(c)];
            || (Succeeds(x, e) && c == e.contract &&
                v == TreeValue(Build(x.hashing.For(e.proofType), e.data, x.c).value.tree))
            || (TreeKey(c) in st.db && v == st.db[TreeKey(c)])
  {
    TreeKeyIsNoCidKey(c, e.contract.merkle);
    if TreeKey(c) == TreeKey(e.contract) {
      TreeKeyInjective(c, e.contract);
    }
    if e.Write? {
      WriteOutcome(x, st, e);
    }
  }

  /** After every run of writes and deletes, each stored tree has the merkle of its key as its root. */
  lemma {:induction false} StoredTreesMatchKeys(x: Setting, run: seq<Event>, c: Contract)
    requires x.Valid() && TreeKey(c) in Exec(x, run).db
    ensures Exec(x, run).db[TreeKey(c)].TreeValue?
    ensures RootOf(Exec(x, run).db[TreeKey(c)].tree) == c.merkle
  {
    hide Step, Succeeds, TreeKey;
    var init, e := run[..|run| - 1], run[|run| - 1];
    TreeEntryOrigin(x, Exec(x, init), e, c);
    BuiltRootOf(x, e);
    if TreeKey(c) in Exec(x, init).db {
      StoredTreesMatchKeys(x, init, c);
    }
  }

  lemma BuiltRootOf(x: Setting, e: Event)
    requires x.Valid()
    ensures Succeeds(x, e) ==>
              RootOf(Build(x.hashing.For(e.proofType), e.data, x.c).value.tree) == e.contract.merkle
  {
    if Succeeds(x, e) {
      BuiltRoot(x.hashing.For(e.proofType), e.data, x.c);
    }
  }

  /* ---------- the CID entries ---------- */

  /** After every run the database holds nothing but contract trees and CIDs. */
  lemma RunHasOnlyFileKeys(x: Setting, run: seq<Event>)
    requires x.Valid()
    ensures OnlyFileKeys(Exec(x, run))
  {
    TreeKeysAreLive(x, run);
    forall k | k in Exec(x, run).db
      ensures TREE_PREFIX <= k || CID_PREFIX <= k
    {
      if IsTreeKey(k) {
        var c: Contract :| k == TreeKey(c);
        TreeKeyIsNoCidKey(c, []);
      } else {
        var m: Bytes :| k == CidKey(m);
        TreeKeyIsNoCidKey(Contract([], "", 0), m);
      }
    }
  }

  /** With the scan over the hex tree prefix, every live contract has its CID entry after every run. */
  lemma {:induction false} HexScanRunKeepsCids(x: Setting, run: seq<Event>)
    requires x.Valid() && forall m :: x.scan(m) == MerklePrefix(m)
    ensures CidsPresent(Exec(x, run))
  {
    if run != [] {
      var init, e := run[..|run| - 1], run[|run| - 1];
      var st := Exec(x, init);
      HexScanRunKeepsCids(x, init);
      if e.Delete? {
        HexScanKeepsLinks(st, e.contract);
      } else {
        WriteOutcome(x, st, e);
        forall c: Contract | TreeKey(c) in Exec(x, run).db
          ensures CidKey(c.merkle) in Exec(x, run).db
        {
          TreeKeyIsNoCidKey(c, e.contract.merkle);
          if TreeKey(c) == TreeKey(e.contract) {
            TreeKeyInjective(c, e.contract);
          }
        }
      }
    }
  }
}
