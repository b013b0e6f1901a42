/**
 * The block DAG of the IPFS store: collectDAGNodes and removeDAGNode of
 * file_system/file_system.go over a finite map from CIDs to links. Links may be
 * shared, cyclic or dangling.
 */
module Dag {
  import opened Wrappers

  /** A content identifier; nothing is known about it but equality. */
  datatype Cid = Cid(multihash: nat)

  type Blocks = map<Cid, seq<Cid>>

  /* ---------- reachability ---------- */

  predicate Linked(blocks: Blocks, c: Cid, d: Cid) {
    c in blocks && d in blocks[c]
  }

  ghost predicate IsPath(blocks: Blocks, p: seq<Cid>) {
    && p != []
    && forall i | 0 < i < |p| :: Linked(blocks, p[i - 1], p[i])
  }

  ghost predicate Reaches(blocks: Blocks, root: Cid, c: Cid) {
    exists p :: IsPath(blocks, p) && p[0] == root && p[|p| - 1] == c
  }

  /** A set that no link leaves, except out of CIDs that are not stored. */
  ghost predicate Closed(blocks: Blocks, s: set<Cid>) {
    forall c, d | c in s && Linked(blocks, c, d) :: d in s
  }

  /** Every CID that the root reaches is stored. */
  ghost predicate Collects(blocks: Blocks, root: Cid) {
    forall c | Reaches(blocks, root, c) :: c in blocks
  }

  /** The CIDs that the root reaches, itself included, stored or not. */
  ghost function ReachSet(blocks: Blocks, root: Cid): (s: set<Cid>)
    ensures forall c :: c in s <==> Reaches(blocks, root, c)
  {
    var universe := {root} + set b, d | b in blocks && d in blocks[b] :: d;
    forall c | Reaches(blocks, root, c)
      ensures c in universe
    {
      ReachesSelf(blocks, root);
      ReachWithin(blocks, root, c, universe);
    }
    set c | c in universe && Reaches(blocks, root, c)
  }

  lemma ReachesSelf(blocks: Blocks, root: Cid)
    ensures Reaches(blocks, root, root)
  {
    assert IsPath(blocks, [root]);
  }

  lemma ReachesStep(blocks: Blocks, root: Cid, c: Cid, d: Cid)
    requires Reaches(blocks, root, c) && Linked(blocks, c, d)
    ensures Reaches(blocks, root, d)
  {
    var p :| IsPath(blocks, p) && p[0] == root && p[|p| - 1] == c;
    var q := p + [d];
    assert IsPath(blocks, q);
    assert q[0] == root && q[|q| - 1] == d;
  }

  lemma {:induction false} PathWithin(blocks: Blocks, p: seq<Cid>, s: set<Cid>)
    requires IsPath(blocks, p) && p[0] in s && Closed(blocks, s)
    ensures p[|p| - 1] in s
    decreases |p|
  {
    if |p| > 1 {
      var q := p[..|p| - 1];
      assert IsPath(blocks, q);
      PathWithin(blocks, q, s);
      assert Linked(blocks, p[|p| - 2], p[|p| - 1]);
    }
  }

  /** A closed set that holds the root holds everything the root reaches. */
  lemma ReachWithin(blocks: Blocks, root: Cid, c: Cid, s: set<Cid>)
    requires Reaches(blocks, root, c) && root in s && Closed(blocks, s)
    ensures c in s
  {
    var p :| IsPath(blocks, p) && p[0] == root && p[|p| - 1] == c;
    PathWithin(blocks, p, s);
  }

  lemma ReachSetClosed(blocks: Blocks, root: Cid)
    ensures root in ReachSet(blocks, root) && Closed(blocks, ReachSet(blocks, root))
  {
    ReachesSelf(blocks, root);
    forall c, d | c in ReachSet(blocks, root) && Linked(blocks, c, d)
      ensures d in ReachSet(blocks, root)
    {
      ReachesStep(blocks, root, c, d);
    }
  }

  /** A closed set of stored CIDs that holds the root and is reached from it is the reach set. */
  lemma ReachSetUnique(blocks: Blocks, root: Cid, s: set<Cid>)
    requires root in s && Closed(blocks, s) && s <= ReachSet(blocks, root)
    ensures s == ReachSet(blocks, root)
  {
    forall c | c in ReachSet(blocks, root)
      ensures c in s
    {
      ReachWithin(blocks, root, c, s);
    }
  }

  /* ---------- smaller and larger stores ---------- */

  predicate SubStore(small: Blocks, large: Blocks) {
    forall c | c in small :: c in large && large[c] == small[c]
  }

  /** What collects in a store collects the same set in every larger store. */
  lemma CollectsInLarger(small: Blocks, large: Blocks, root: Cid)
    requires SubStore(small, large) && Collects(small, root)
    ensures Collects(large, root) && ReachSet(large, root) == ReachSet(small, root)
  {
    var s := ReachSet(small, root);
    ReachSetClosed(small, root);
    ReachSetClosed(large, root);
    assert Closed(large, s) by {
      forall c, d | c in s && Linked(large, c, d)
        ensures d in s
      {
        assert Linked(small, c, d);
      }
    }
    assert Closed(small, ReachSet(large, root)) by {
      forall c, d | c in ReachSet(large, root) && Linked(small, c, d)
        ensures d in ReachSet(large, root)
      {
        assert Linked(large, c, d);
      }
    }
    forall c | c in s
      ensures c in ReachSet(large, root)
    {
      ReachWithin(small, root, c, ReachSet(large, root));
    }
    ReachSetUnique(large, root, s);
  }

  /**
   * In a smaller store a root that collected before still collects exactly when none of its
   * blocks is gone; then it collects the same set.
   */
  lemma CollectsInSmaller(large: Blocks, small: Blocks, root: Cid)
    requires SubStore(small, large) && Collects(large, root)
    ensures Collects(small, root) <==> ReachSet(large, root) <= small.Keys
    ensures Collects(small, root) ==> ReachSet(small, root) == ReachSet(large, root)
  {
    if Collects(small, root) {
      CollectsInLarger(small, large, root);
    }
    if ReachSet(large, root) <= small.Keys {
      ReachSetClosed(large, root);
      assert Closed(small, ReachSet(large, root)) by {
        forall c, d | c in ReachSet(large, root) && Linked(small, c, d)
          ensures d in ReachSet(large, root)
        {
          assert Linked(large, c, d);
        }
      }
      forall c | Reaches(small, root, c)
        ensures c in small
      {
        ReachWithin(small, root, c, ReachSet(large, root));
      }
    }
  }

  /* ---------- collecting and removing ---------- */

  /**
   * The worklist loop. It ends on every finite store, returns exactly the reachable CIDs,
   * and fails exactly when one of them is not stored.
   */
  method CollectDagNodes(blocks: Blocks, root: Cid) returns (r: Option<set<Cid>>)
    ensures r.Some? <==> Collects(blocks, root)
    ensures r.Some? ==> r.value == ReachSet(blocks, root)
  {
    var nodesToVisit := [root];
    var visited: set<Cid> := {};
    ReachesSelf(blocks, root);
    while nodesToVisit != []
      invariant visited <= blocks.Keys
      invariant root in visited || root in nodesToVisit
      invariant forall c | c in visited || c in nodesToVisit :: Reaches(blocks, root, c)
      invariant forall c, d | c in visited && Linked(blocks, c, d) :: d in visited || d in nodesToVisit
      decreases blocks.Keys - visited, |nodesToVisit|
    {
      var current := nodesToVisit[0];
      ghost var before := nodesToVisit;
      nodesToVisit := nodesToVisit[1..];
      assert before == [current] + nodesToVisit;
      if current in visited {
        continue;
      }
      if current !in blocks {
        return None;
      }
      visited := visited + {current};
      var links := blocks[current];
      for i := 0 to |links|
        invariant before[1..] <= nodesToVisit
        invariant forall c | c in nodesToVisit :: Reaches(blocks, root, c)
        invariant forall d | d in links[..i] :: d in visited || d in nodesToVisit
      {
        if links[i] !in visited {
          assert Linked(blocks, current, links[i]);
          ReachesStep(blocks, root, current, links[i]);
          nodesToVisit := nodesToVisit + [links[i]];
        }
      }
    }
    ReachSetUnique(blocks, root, visited);
    return Some(visited);
  }

  /** The store after removeDAGNode, and whether it succeeded. */
  ghost function RemoveDag(blocks: Blocks, root: Cid): (Blocks, bool) {
    if Collects(blocks, root) then (blocks - ReachSet(blocks, root), true) else (blocks, false)
  }

  /**
   * Removing one root's DAG leaves another collectable root collectable exactly when the two
   * share no block, and then its reachable set is the same as before.
   */
  lemma {:induction false} RemoveSparesDisjoint(blocks: Blocks, removed: Cid, root: Cid)
    requires Collects(blocks, removed) && Collects(blocks, root)
    ensures var left := RemoveDag(blocks, removed).0;
            && (Collects(left, root) <==> ReachSet(blocks, removed) !! ReachSet(blocks, root))
            && (Collects(left, root) ==> ReachSet(left, root) == ReachSet(blocks, root))
  {
    CollectsInSmaller(blocks, RemoveDag(blocks, removed).0, root);
  }

  /* ---------- the garbage report ---------- */

  /** The stored blocks that no root with a successful collection reaches. */
  ghost function Unused(blocks: Blocks, roots: set<Cid>): set<Cid> {
    set c | c in blocks && forall r | r in roots && Collects(blocks, r) :: c !in ReachSet(blocks, r)
  }

  /**
   * Deleting everything reported keeps every collectable root collecting the same set, makes no
   * other root collectable, and leaves nothing to report.
   */
  lemma {:induction false} DeletingUnusedIsSafe(blocks: Blocks, roots: set<Cid>)
    ensures var left := blocks - Unused(blocks, roots);
            && (forall r | r in roots :: Collects(left, r) <==> Collects(blocks, r))
            && (forall r | r in roots && Collects(blocks, r) :: ReachSet(left, r) == ReachSet(blocks, r))
            && Unused(left, roots) == {}
  {
    var left := blocks - Unused(blocks, roots);
    forall r | r in roots
      ensures Collects(left, r) <==> Collects(blocks, r)
      ensures Collects(blocks, r) ==> ReachSet(left, r) == ReachSet(blocks, r)
    {
      if Collects(blocks, r) {
        CollectsInSmaller(blocks, left, r);
      } else if Collects(left, r) {
        CollectsInLarger(left, blocks, r);
      }
    }
  }
}
