/** The database keys of file_system/keys.go and file_system/file_system.go. */
module Keys {
  import opened Wrappers
  import opened Text
  import opened TextLaws

  /** One storage contract: the file's merkle root, its owner and its starting height. */
  datatype Contract = Contract(merkle: Bytes, owner: string, start: Int64)

  datatype SplitError = BadMerkle | BadStart | MissingField

  const TREE_PREFIX := "tree/"
  const CID_PREFIX := "cid/"

  function OwnerAndStart(c: Contract): string {
    c.owner + "/" + DecInt(c.start)
  }

  /** What follows the "tree/" prefix in a contract's key. */
  function KeyBody(c: Contract): string {
    Hex(c.merkle) + "/" + OwnerAndStart(c)
  }

  function TreeKey(c: Contract): string {
    TREE_PREFIX + KeyBody(c)
  }

  function CidKey(merkle: Bytes): string {
    CID_PREFIX + Hex(merkle)
  }

  /** The prefix shared by the keys of all contracts of one merkle, and by no other key. */
  function MerklePrefix(merkle: Bytes): string {
    TREE_PREFIX + Hex(merkle) + "/"
  }

  /** MissingField is the index-out-of-range panic on a key with fewer than three fields. */
  function SplitMerkle(key: string): Result<Contract, SplitError> {
    var fields := Split(key);
    match DecodeHex(fields[0])
    case None => Err(BadMerkle)
    case Some(merkle) =>
      if |fields| < 3 then Err(MissingField)
      else
        match ParseInt64(fields[2])
        case None => Err(BadStart)
        case Some(start) => Ok(Contract(merkle, fields[1], start))
  }

  /** The parser inverts the printer exactly for the owners without a slash. */
  lemma {:induction false} SplitMerkleInvertsKeyBody(c: Contract)
    ensures SplitMerkle(KeyBody(c)) == Ok(c) <==> '/' !in c.owner
  {
    SplitAtSlash(Hex(c.merkle), OwnerAndStart(c));
    DecodeHexOfHex(c.merkle);
    if '/' in c.owner {
      SplitFieldHasNoSlash(KeyBody(c), 1);
    } else {
      SplitAtSlash(c.owner, DecInt(c.start));
      DecIntHasNoSlash(c.start);
      SplitWithoutSlash(DecInt(c.start));
      ParseInt64OfDecInt(c.start);
    }
  }

  lemma {:induction false} SplitFieldHasNoSlash(s: string, i: nat)
    ensures i < |Split(s)| ==> '/' !in Split(s)[i]
  {
    if s != "" {
      SplitFieldHasNoSlash(s[1..], i);
      if i > 0 {
        SplitFieldHasNoSlash(s[1..], i - 1);
      }
    }
  }

  /** Distinct contracts have distinct keys, whatever the owners contain. */
  lemma {:induction false} TreeKeyInjective(a: Contract, b: Contract)
    requires TreeKey(a) == TreeKey(b)
    ensures a == b
  {
    assert KeyBody(a) == TreeKey(a)[5..] && KeyBody(b) == TreeKey(b)[5..];
    FirstSlash(Hex(a.merkle), OwnerAndStart(a), Hex(b.merkle), OwnerAndStart(b));
    HexInjective(a.merkle, b.merkle);
    DecIntHasNoSlash(a.start);
    DecIntHasNoSlash(b.start);
    LastSlash(a.owner, DecInt(a.start), b.owner, DecInt(b.start));
    ParseInt64OfDecInt(a.start);
    ParseInt64OfDecInt(b.start);
  }

  lemma FirstSlash(a: string, r: string, b: string, t: string)
    requires '/' !in a && '/' !in b
    requires a + "/" + r == b + "/" + t
    ensures a == b && r == t
  {
    var s := a + "/" + r;
    assert s[|a|] == '/' && s[|b|] == '/';
    assert forall i | 0 <= i < |a| :: s[i] == a[i] != '/';
    assert forall i | 0 <= i < |b| :: s[i] == b[i] != '/';
    assert s[..|a|] == a && s[..|b|] == b && s[|a| + 1..] == r && s[|b| + 1..] == t;
  }

  lemma LastSlash(r: string, a: string, t: string, b: string)
    requires '/' !in a && '/' !in b
    requires r + "/" + a == t + "/" + b
    ensures a == b && r == t
  {
    var s := r + "/" + a;
    assert s[|r|] == '/' && s[|t|] == '/';
    assert forall i | |r| < i < |s| :: s[i] == a[i - |r| - 1] != '/';
    assert forall i | |t| < i < |s| :: s[i] == b[i - |t| - 1] != '/';
    assert s[..|r|] == r && s[..|t|] == t && s[|r| + 1..] == a && s[|t| + 1..] == b;
  }

  lemma CidKeyInjective(a: Bytes, b: Bytes)
    requires CidKey(a) == CidKey(b)
    ensures a == b
  {
    assert CidKey(a)[4..] == Hex(a) && CidKey(b)[4..] == Hex(b);
    HexInjective(a, b);
  }

  lemma TreeKeyIsNoCidKey(c: Contract, merkle: Bytes)
    ensures TreeKey(c) != CidKey(merkle)
    ensures TREE_PREFIX <= TreeKey(c) && !(TREE_PREFIX <= CidKey(merkle))
    ensures CID_PREFIX <= CidKey(merkle) && !(CID_PREFIX <= TreeKey(c))
  {
    assert TreeKey(c)[0] == 't' && CidKey(merkle)[0] == 'c';
  }

  /** The hex tree prefix of a merkle selects exactly the contracts of that merkle. */
  lemma {:induction false} MerklePrefixSelects(merkle: Bytes, c: Contract)
    ensures MerklePrefix(merkle) <= TreeKey(c) <==> c.merkle == merkle
  {
    hide Hex, DecInt;
    var p, k := MerklePrefix(merkle), TreeKey(c);
    if p <= k {
      var tail := k[|p|..];
      assert k == p + tail;
      assert k[5..] == KeyBody(c) == Hex(merkle) + "/" + tail;
      FirstSlash(Hex(c.merkle), OwnerAndStart(c), Hex(merkle), tail);
      HexInjective(c.merkle, merkle);
    }
    if c.merkle == merkle {
      assert k == p + OwnerAndStart(c);
    }
  }

  /* ---------- the keys written out ---------- */

  /** The fields of the two kinds of keys and their order. */
  lemma {:induction false} KeysAreWritten(c: Contract)
    ensures TreeKey(c) == "tree/" + Hex(c.merkle) + "/" + c.owner + "/" + DecInt(c.start)
    ensures CidKey(c.merkle) == "cid/" + Hex(c.merkle)
    ensures '/' !in c.owner ==> Split(TreeKey(c)) == ["tree", Hex(c.merkle), c.owner, DecInt(c.start)]
  {
    hide Hex, DecInt;
    assert TreeKey(c) == "tree" + "/" + KeyBody(c);
    SplitAtSlash("tree", KeyBody(c));
    SplitAtSlash(Hex(c.merkle), OwnerAndStart(c));
    if '/' !in c.owner {
      SplitAtSlash(c.owner, DecInt(c.start));
      DecIntHasNoSlash(c.start);
      SplitWithoutSlash(DecInt(c.start));
    }
  }

  /** The bytes a0 07 for jkl1 from height -12. */
  lemma {:induction false} KeyExample()
    ensures TreeKey(Contract([0xa0, 7], "jkl1", -12)) == "tree/a007/jkl1/-12"
    ensures CidKey([0xa0, 7]) == "cid/a007"
  {
    HexOfTwo(0xa0, 7);
    DecOfTwo(12);
    hide Hex, Dec;
  }

  /**
   * A key body of at least three fields: the first must be hex, then the third a 64-bit number; more
   * fields are ignored.
   */
  lemma {:induction false} SplitMerkleOutcome(m: string, o: string, n: string, rest: string)
    requires '/' !in m && '/' !in o && '/' !in n && (rest == "" || rest[0] == '/')
    ensures SplitMerkle(m + "/" + o + "/" + n + rest) ==
            if DecodeHex(m).None? then Err(BadMerkle)
            else if ParseInt64(n).None? then Err(BadStart)
            else Ok(Contract(DecodeHex(m).value, o, ParseInt64(n).value))
  {
    hide DecodeHex, ParseInt64, Split;
    var tail := n + rest;
    assert m + "/" + o + "/" + n + rest == m + "/" + (o + "/" + tail);
    SplitAtSlash(m, o + "/" + tail);
    SplitAtSlash(o, tail);
    if rest == "" {
      assert tail == n;
      SplitWithoutSlash(n);
    } else {
      assert tail == n + "/" + rest[1..];
      SplitAtSlash(n, rest[1..]);
    }
  }

  /** With fewer fields the parser fails on the first one, or panics for want of the third. */
  lemma {:induction false} SplitMerkleTooShort(m: string, o: string)
    requires '/' !in m && '/' !in o
    ensures SplitMerkle(m) == SplitMerkle(m + "/" + o) == Err(if DecodeHex(m).None? then BadMerkle else MissingField)
  {
    SplitWithoutSlash(m);
    SplitAtSlash(m, o);
    SplitWithoutSlash(o);
  }
}
