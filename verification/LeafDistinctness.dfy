/**
 * When the hashed leaf texts of one file are pairwise distinct. The text of leaf i is the
 * decimal index directly followed by the chunk in hex, so a short last chunk under a long
 * index can print like an earlier full chunk.
 */
module LeafDistinctness {
  import opened Text
  import opened FileTree
  import opened Merkle

  predicate Distinct(texts: seq<string>) {
    forall i, j | 0 <= i < j < |texts| :: texts[i] != texts[j]
  }

  /**
   * The exact guard on a file's length and chunk size: the last chunk is full, or its index
   * has too few digits to make up for the hex digits it lacks.
   */
  predicate IndexGuard(n: nat, c: nat)
    requires c >= 1
  {
    n % c == 0 || n / c < Pow(10, 2 * (c - n % c))
  }

  /** With a ragged last chunk, that chunk has index n / c and length n % c. */
  lemma {:induction false} RaggedEnd(n: nat, c: nat)
    requires c >= 1 && n % c != 0
    ensures NumChunks(n, c) == n / c + 1
    ensures n == n / c * c + n % c
  {
    QuotientUnique(n + c - 1, c, n / c + 1, n % c - 1);
  }

  lemma {:induction false} ChunkEnds(n: nat, c: nat, i: nat)
    requires c >= 1 && i * c < n
    ensures i < n / c ==> n - i * c >= c
    ensures i >= n / c ==> i == n / c && n - i * c == n % c
  {
    var q := n / c;
    assert n == q * c + n % c;
    assert c * (q - i) == q * c - i * c;
    SmallMultiple(c, q - i);
  }

  lemma ChunkLength(data: Bytes, c: nat, i: nat)
    requires c >= 1 && i < |Chunks(data, c)|
    ensures i < |data| / c ==> |Chunks(data, c)[i]| == c
    ensures i >= |data| / c ==> i == |data| / c && |Chunks(data, c)[i]| == |data| % c > 0
  {
    ChunkAt(data, c, i);
    ChunkEnds(|data|, c, i);
  }

  lemma CommonPrefix(a: string, x: string, b: string, y: string)
    requires a + x == b + y && |x| >= |y|
    ensures |b| == |a| + (|x| - |y|) && a == b[..|a|]
  {
    var s := a + x;
    assert |s| == |a| + |x| && |s| == |b| + |y|;
    assert a == s[..|a|] && b == s[..|b|];
  }

  lemma LongNumber(n: nat, m: nat)
    requires 1 <= m < |Dec(n)|
    ensures n >= Pow(10, m)
  {
    DropDigits(n, m);
  }

  /** Two indices that print alike in front of more text: the longer one is very large. */
  lemma {:induction false} PrefixIndex(i: nat, j: nat, x: string, y: string)
    requires Dec(i) + x == Dec(j) + y && |x| >= |y| && i != j
    ensures |x| > |y|
    ensures j >= Pow(10, |x| - |y|)
  {
    hide Dec, Pow;
    CommonPrefix(Dec(i), x, Dec(j), y);
    if |x| == |y| {
      assert Dec(j)[..|Dec(j)|] == Dec(j);
      DecInjective(i, j);
    } else {
      LongNumber(j, |x| - |y|);
    }
  }

  lemma GuardSuffices(data: Bytes, c: nat)
    requires c >= 1 && IndexGuard(|data|, c)
    ensures Distinct(LeafTexts(data, c))
  {
    var chunks := Chunks(data, c);
    forall i, j | 0 <= i < j < |chunks|
      ensures LeafText(i, chunks[i]) != LeafText(j, chunks[j])
    {
      ChunkLength(data, c, i);
      ChunkLength(data, c, j);
      if LeafText(i, chunks[i]) == LeafText(j, chunks[j]) {
        PrefixIndex(i, j, Hex(chunks[i]), Hex(chunks[j]));
        assert false;
      }
    }
  }

  function Zeros(n: nat): Bytes {
    seq(n, _ => 0)
  }

  /** A number of more than m digits is a smaller number followed by m digits. */
  lemma SplitIndex(j: nat, m: nat) returns (i: nat, tail: string)
    requires m >= 1 && j >= Pow(10, m)
    ensures Dec(j) == Dec(i) + tail && |tail| == m && i < j
    ensures AllDigits(tail)
  {
    ManyDigits(j, m);
    DropDigits(j, m);
    i := j / Pow(10, m);
    tail := Dec(j)[|Dec(j)| - m..];
    assert Dec(j) == Dec(j)[..|Dec(j)| - m] + tail;
    assert Pow(10, m) >= 10 by { assert Pow(10, m) == 10 * Pow(10, m - 1); }
    SmallerQuotient(j, Pow(10, m));
  }

  lemma SmallerQuotient(n: nat, d: nat)
    requires d >= 2 && n >= 1
    ensures n / d < n
  {
    var q := n / d;
    assert n == d * q + n % d;
    assert d * q >= 2 * q by { assert (d - 2) * q >= 0; }
  }

  /** A file whose chunk i is b followed by zeros and whose other bytes are zero. */
  lemma {:induction false} PlantedFile(n: nat, c: nat, i: nat, j: nat, b: Bytes) returns (data: Bytes)
    requires c >= 1 && i < j && j * c < n <= j * c + c
    requires |b| == c - (n - j * c)
    ensures |data| == n && j < |Chunks(data, c)|
    ensures Chunks(data, c)[i] == b + Zeros(n - j * c)
    ensures Chunks(data, c)[j] == Zeros(n - j * c)
  {
    assert c * (j - i) == j * c - i * c;
    SmallMultiple(c, j - i);
    data := Zeros(i * c) + b + Zeros(n - i * c - |b|);
    ChunkAt(data, c, i);
    ChunkAt(data, c, j);
    assert Slice(data, c, i) == b + Zeros(n - j * c);
    assert Slice(data, c, j) == Zeros(n - j * c);
  }

  /** Outside the guard some file of that length has two equal leaf texts. */
  lemma GuardNecessary(n: nat, c: nat) returns (data: Bytes, i: nat, j: nat)
    requires c >= 1 && !IndexGuard(n, c)
    ensures |data| == n && i < j < |LeafTexts(data, c)|
    ensures LeafTexts(data, c)[i] == LeafTexts(data, c)[j]
  {
    hide Dec, Pow, Hex, DecodeHex, Chunks;
    var l := n % c;
    var tail: string;
    j := n / c;
    i, tail := SplitIndex(j, 2 * (c - l));
    HexOfDecodeHex(tail);
    var b := DecodeHex(tail).value;
    RaggedEnd(n, c);
    data := PlantedFile(n, c, i, j, b);
    HexOfConcat(b, Zeros(l));
    assert Dec(i) + (tail + Hex(Zeros(l))) == (Dec(i) + tail) + Hex(Zeros(l));
  }

  /**
   * The leaf texts of every file of length n are pairwise distinct exactly when the guard
   * on n and the chunk size holds.
   */
  lemma {:induction false} LeafTextsDistinctIff(n: nat, c: nat)
    requires c >= 1
    ensures (forall data: Bytes | |data| == n :: Distinct(LeafTexts(data, c))) <==> IndexGuard(n, c)
  {
    if IndexGuard(n, c) {
      forall data: Bytes | |data| == n
        ensures Distinct(LeafTexts(data, c))
      {
        GuardSuffices(data, c);
      }
    } else {
      var data, i, j := GuardNecessary(n, c);
      assert !Distinct(LeafTexts(data, c));
    }
  }

  /** Full chunks only, or at most 100 chunks, are inside the guard; 201 bytes in chunks of 2 are not. */
  lemma {:induction false} GuardExamples(n: nat, c: nat)
    requires c >= 1
    ensures n % c == 0 || NumChunks(n, c) <= 100 ==> IndexGuard(n, c)
    ensures !IndexGuard(201, 2)
  {
    assert Pow(10, 2) == 100;
    if n % c != 0 {
      RaggedEnd(n, c);
      PowMonotone(2, 2 * (c - n % c));
    }
  }

  lemma {:induction false} PowMonotone(a: nat, b: nat)
    requires a <= b
    ensures Pow(10, a) <= Pow(10, b)
  {
    if a < b {
      PowMonotone(a, b - 1);
    }
  }

  /**
   * Inside the guard the generated proof carries the requested chunk index, unless building
   * the tree hashed a colliding pair.
   */
  lemma {:induction false} ProofCarriesIndex(s: Suite, data: Bytes, c: nat, i: nat)
    requires s.Valid() && c >= 1 && i * c < |data| && IndexGuard(|data|, c)
    ensures var r := GenerateMerkleProof(s, Build(s, data, c).value.tree, i, Slice(data, c, i));
            (r.Some? && r.value.1.index == i) || Broken(s, Hashed(s, data, c))
  {
    ChunkIsProvable(s, data, c, i);
    ChunkAt(data, c, i);
    var chunks, leaves := Chunks(data, c), FileLeaves(s, data, c);
    var j := FirstIndex(leaves, s.content(LeafText(i, chunks[i]))).value;
    assert leaves[j] == leaves[i];
    if !Broken(s, Hashed(s, data, c)) {
      LeafTextHashed(s, data, c, i);
      LeafTextHashed(s, data, c, j);
      NoTextCollision(s, Hashed(s, data, c), LeafText(i, chunks[i]), LeafText(j, chunks[j]));
      GuardSuffices(data, c);
      assert LeafTexts(data, c)[i] == LeafTexts(data, c)[j];
    }
  }

  /**
   * Outside the guard some file of that length has a chunk whose generated proof verifies but carries
   * an earlier index, whatever the hashes are.
   */
  lemma {:induction false} ProofMissesIndex(s: Suite, n: nat, c: nat) returns (data: Bytes, j: nat)
    requires s.Valid() && c >= 1 && !IndexGuard(n, c)
    ensures |data| == n && j * c < n
    ensures var r := GenerateMerkleProof(s, Build(s, data, c).value.tree, j, Slice(data, c, j));
            r.Some? && r.value.0 && r.value.1.index < j
  {
    var i: nat;
    data, i, j := GuardNecessary(n, c);
    ChunkAt(data, c, i);
    ChunkAt(data, c, j);
    ChunkIsProvable(s, data, c, j);
    var leaves := FileLeaves(s, data, c);
    assert leaves[i] == s.content(LeafTexts(data, c)[i]) && leaves[j] == s.content(LeafTexts(data, c)[j]);
    FirstIndexIsLeast(leaves, leaves[j], i);
  }
}
