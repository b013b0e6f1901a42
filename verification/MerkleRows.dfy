/** The heap tree rebuilt row by row from the leaves up, as an independent account of what it hashes. */
module MerkleRows {
  import opened Wrappers
  import opened Text
  import opened Merkle

  /** The digests of the leaves, and zero bytes up to a width of w. */
  function LeafRow(s: Suite, leaves: seq<Bytes>, w: nat): seq<Bytes> {
    seq(w, i requires 0 <= i < w => if i < |leaves| then s.tree(leaves[i]) else seq(s.size, _ => 0))
  }

  /** The digests of neighbouring pairs, left before right. */
  function Pairs(s: Suite, row: seq<Bytes>): (r: seq<Bytes>) {
    seq(|row| / 2, i requires 0 <= i < |row| / 2 => s.tree(row[2 * i] + row[2 * i + 1]))
  }

  /** The row `up` steps above the leaves. */
  function RowAbove(s: Suite, leaves: seq<Bytes>, w: nat, up: nat): seq<Bytes> {
    if up == 0 then LeafRow(s, leaves, w) else Pairs(s, RowAbove(s, leaves, w, up - 1))
  }

  /** The row holds the heap's nodes from slot `first` on, as many as that. */
  ghost predicate IsHeapRow(s: Suite, leaves: seq<Bytes>, w: nat, first: nat, row: seq<Bytes>) {
    && |row| == first >= 1
    && forall i | 0 <= i < first :: row[i] == HeapNode(s, leaves, w, first + i)
  }

  lemma PairsAreNextRow(s: Suite, leaves: seq<Bytes>, w: nat, first: nat, below: seq<Bytes>)
    requires first >= 1 && 2 * first <= w && IsHeapRow(s, leaves, w, 2 * first, below)
    ensures IsHeapRow(s, leaves, w, first, Pairs(s, below))
  {
    hide HeapNode;
    forall i | 0 <= i < first
      ensures Pairs(s, below)[i] == HeapNode(s, leaves, w, first + i)
    {
      InnerNode(s, leaves, w, first + i);
      assert below[2 * i] == HeapNode(s, leaves, w, 2 * first + 2 * i);
      assert below[2 * i + 1] == HeapNode(s, leaves, w, 2 * first + (2 * i + 1));
    }
  }

  /** The row that is d steps below the root starts at slot Pow2(d). */
  lemma {:induction false} RowIsHeap(s: Suite, leaves: seq<Bytes>, h: nat, d: nat)
    requires d <= h
    ensures IsHeapRow(s, leaves, Pow2(h), Pow2(d), RowAbove(s, leaves, Pow2(h), h - d))
    decreases h - d
  {
    hide IsHeapRow, Pairs, LeafRow, HeapNode;
    if d < h {
      RowIsHeap(s, leaves, h, d + 1);
      Pow2Monotone(d + 1, h);
      PairsAreNextRow(s, leaves, Pow2(h), Pow2(d), RowAbove(s, leaves, Pow2(h), h - d - 1));
    } else {
      LeafRowIsHeap(s, leaves, Pow2(h));
    }
  }

  lemma LeafRowIsHeap(s: Suite, leaves: seq<Bytes>, w: nat)
    requires w >= 1
    ensures IsHeapRow(s, leaves, w, w, LeafRow(s, leaves, w))
  {
    forall i | 0 <= i < w
      ensures LeafRow(s, leaves, w)[i] == HeapNode(s, leaves, w, w + i)
    {
    }
  }

  lemma TopRow(s: Suite, leaves: seq<Bytes>, w: nat, row: seq<Bytes>)
    requires IsHeapRow(s, leaves, w, 1, row)
    ensures row == [HeapNode(s, leaves, w, 1)]
  {
    assert row[0] == HeapNode(s, leaves, w, 1 + 0);
  }

  /** The least number of rows that makes room for n leaves. */
  lemma {:induction false} HeightIsLeast(n: nat, h: nat)
    requires n <= Pow2(h) && (h > 0 ==> Pow2(h - 1) < n)
    ensures Height(n) == h
  {
    if Height(n) < h {
      Pow2Monotone(Height(n), h - 1);
    } else if h < Height(n) {
      Pow2Monotone(h, Height(n) - 1);
    }
  }

  /** The root is what is left after pairing the padded leaf digests height times. */
  lemma {:induction false} RootByRows(s: Suite, leaves: seq<Bytes>)
    ensures RowAbove(s, leaves, Pow2(Height(|leaves|)), Height(|leaves|)) == [Root(s, leaves)]
  {
    var h := Height(|leaves|);
    assert Pow2(0) == 1;
    hide HeapNode, RowAbove, Height, Pow2, IsHeapRow;
    RowIsHeap(s, leaves, h, 0);
    TopRow(s, leaves, Pow2(h), RowAbove(s, leaves, Pow2(h), h));
  }

  /**
   * A tree, as NewTree builds and exports it, is its rows one after the other, from the root down,
   * behind an unused slot.
   */
  lemma {:induction false} TreeByRows(s: Suite, t: MerkleTree, d: nat)
    requires IsBuilt(s, t) && d <= Height(|t.leaves|)
    ensures var h := Height(|t.leaves|);
            && |t.nodes| == 2 * Pow2(h) && 2 * Pow2(d) <= |t.nodes|
            && t.nodes[Pow2(d)..2 * Pow2(d)] == RowAbove(s, t.leaves, Pow2(h), h - d)
  {
    hide HeapNode, RowAbove, Height, IsHeapRow, IsBuilt;
    var h := Height(|t.leaves|);
    Pow2Monotone(d, h);
    RowIsHeap(s, t.leaves, h, d);
    RowOfNodes(s, t, h, Pow2(d), RowAbove(s, t.leaves, Pow2(h), h - d));
  }

  lemma RowOfNodes(s: Suite, t: MerkleTree, h: nat, first: nat, row: seq<Bytes>)
    requires IsBuilt(s, t) && h == Height(|t.leaves|) && first <= Pow2(h)
    requires IsHeapRow(s, t.leaves, Pow2(h), first, row)
    ensures 2 * first <= |t.nodes| && t.nodes[first..2 * first] == row
  {
    hide HeapNode, Height, Pow2;
    assert |t.nodes| == 2 * Pow2(h);
  }

  /** Three leaves: the last one is paired with zeros. */
  lemma {:induction false} RootOfThree(s: Suite, a: Bytes, b: Bytes, c: Bytes)
    ensures Root(s, [a, b, c]) ==
            s.tree(s.tree(s.tree(a) + s.tree(b)) + s.tree(s.tree(c) + seq(s.size, _ => 0)))
  {
    var leaves := [a, b, c];
    assert Pow2(2) == 4 && Pow2(1) == 2;
    HeightIsLeast(3, 2);
    RootByRows(s, leaves);
    var row := LeafRow(s, leaves, 4);
    assert RowAbove(s, leaves, 4, 1) == Pairs(s, row);
    assert RowAbove(s, leaves, 4, 2) == Pairs(s, Pairs(s, row));
  }

  /**
   * The l-th hash of a proof is the neighbour, in the row l steps above the leaves, of what the leaf
   * has become there.
   */
  lemma {:induction false} PathIsNeighbours(t: MerkleTree, k: nat, l: nat)
    requires k < |t.nodes| && l < |Path(t, k)|
    ensures k / Pow2(l) >= 2 && Sibling(k / Pow2(l)) < |t.nodes|
    ensures Path(t, k)[l] == t.nodes[Sibling(k / Pow2(l))]
  {
    if l > 0 {
      PathIsNeighbours(t, k / 2, l - 1);
      HalveTwice(k, Pow2(l - 1));
    }
  }

  lemma HalveTwice(k: nat, p: nat)
    requires p >= 1
    ensures k / 2 / p == k / (2 * p)
  {
    var q, r := k / 2 / p, (k / 2) % p;
    assert k == 2 * (p * q + r) + k % 2;
    assert k == (2 * p) * q + (2 * r + k % 2);
    QuotientUnique(k, 2 * p, q, 2 * r + k % 2);
  }
}
