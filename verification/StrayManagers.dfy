/** The stray manager object: one dispatch round, Pop and RefreshList. */
module StrayManagers {
  import opened Wrappers
  import opened Strays

  /** The strays of the hands and the list after the first n hands have been served. */
  function Served(hands: seq<Option<Stray>>, strays: seq<Stray>, n: nat): (r: (seq<Option<Stray>>, seq<Stray>))
    requires n <= |hands|
    ensures |r.0| == |hands|
    ensures forall k | n <= k < |hands| :: r.0[k] == hands[k]
  {
    if n == 0 then (hands, strays)
    else
      var (before, left) := Served(hands, strays, n - 1);
      if before[n - 1].Some? then (before, left)
      else
        var (stray, rest) := Popped(left);
        (before[n - 1 := stray], rest)
  }

  /** The strays that hands received in the round, in the order of the hands. */
  function NewlyGiven(before: seq<Option<Stray>>, after: seq<Option<Stray>>, n: nat): seq<Stray>
    requires n <= |before| && |after| == |before|
  {
    if n == 0 then []
    else
      NewlyGiven(before, after, n - 1) +
      (if before[n - 1].None? && after[n - 1].Some? then [after[n - 1].value] else [])
  }

  /**
   * A round hands out the front of the list to the free hands in order, leaves busy hands alone,
   * and leaves a hand free only when the list has run out.
   */
  lemma {:induction false} RoundConserves(hands: seq<Option<Stray>>, strays: seq<Stray>, n: nat)
    requires n <= |hands|
    ensures var (after, rest) := Served(hands, strays, n);
            && NewlyGiven(hands, after, n) + rest == strays
            && (forall k | 0 <= k < n && hands[k].Some? :: after[k] == hands[k])
            && (forall k | 0 <= k < n && after[k].None? :: rest == [])
  {
    if n > 0 {
      RoundConserves(hands, strays, n - 1);
      var (before, left) := Served(hands, strays, n - 1);
      var (after, rest) := Served(hands, strays, n);
      SameGiven(hands, before, after, n - 1);
      if hands[n - 1].None? && left != [] {
        assert left == [left[0]] + left[1..];
      }
    }
  }

  lemma {:induction false} SameGiven(hands: seq<Option<Stray>>, a: seq<Option<Stray>>, b: seq<Option<Stray>>, n: nat)
    requires n <= |hands| && |a| == |hands| && |b| == |hands|
    requires forall k | 0 <= k < n :: a[k] == b[k]
    ensures NewlyGiven(hands, a, n) == NewlyGiven(hands, b, n)
  {
    if n > 0 {
      SameGiven(hands, a, b, n - 1);
    }
  }

  /* ---------- the round on the machine ---------- */

  function StraysOf(s: Sys): seq<Option<Stray>> {
    seq(|s.hands|, k requires 0 <= k < |s.hands| => s.hands[k].stray)
  }

  /** The manager's steps for the hand it has come to, with nothing else in between. */
  function ServeHand(max: int, s: Sys): Sys
    requires s.cursor.At? && s.cursor.k < |s.hands|
  {
    var t := Happen(max, s, Look);
    if t.cursor.Free? then Happen(max, t, Give) else t
  }

  /** The manager wakes and serves hands 0 to n - 1; None only if the cursor went astray. */
  function Round(max: int, s: Sys, n: nat): Option<Sys>
    requires s.cursor.Asleep? && n <= |s.hands|
  {
    if n == 0 then Some(Happen(max, s, Dispatch))
    else
      match Round(max, s, n - 1)
      case None => None
      case Some(t) => if t.cursor == At(n - 1) && n <= |t.hands| then Some(ServeHand(max, t)) else None
  }

  lemma OneHandServed(max: int, t: Sys)
    requires t.cursor.At? && t.cursor.k < |t.hands|
    ensures var k, u := t.cursor.k, ServeHand(max, t);
            && u.cursor == At(k + 1) && |u.hands| == |t.hands|
            && (StraysOf(u), u.strays) ==
               if StraysOf(t)[k].Some? then (StraysOf(t), t.strays)
               else (StraysOf(t)[k := Popped(t.strays).0], Popped(t.strays).1)
  {
    var k, u := t.cursor.k, ServeHand(max, t);
    assert StraysOf(u) == if StraysOf(t)[k].Some? then StraysOf(t) else StraysOf(t)[k := Popped(t.strays).0];
  }

  /** The loop of the object is this interleaving of the machine. */
  lemma {:induction false} RoundIsServed(max: int, s: Sys, n: nat)
    requires s.cursor.Asleep? && n <= |s.hands|
    ensures Round(max, s, n).Some?
    ensures var t := Round(max, s, n).value;
            && t.cursor == At(n) && |t.hands| == |s.hands|
            && (StraysOf(t), t.strays) == Served(StraysOf(s), s.strays, n)
  {
    if n > 0 {
      hide StraysOf, Happen, ServeHand, Popped;
      RoundIsServed(max, s, n - 1);
      OneHandServed(max, Round(max, s, n - 1).value);
    } else {
      assert StraysOf(Round(max, s, 0).value) == StraysOf(s);
    }
  }

  class Hand {
    var stray: Option<Stray>

    constructor ()
      ensures stray == None
    {
      stray := None;
    }

    predicate Busy()
      reads this
    {
      stray.Some?
    }

    method Take(stray: Option<Stray>)
      modifies this
      ensures this.stray == stray
    {
      this.stray := stray;
    }
  }

  class StrayManager {
    var strays: seq<Stray>
    var lastSize: nat
    var hands: seq<Hand>

    ghost predicate Valid()
      reads this
    {
      forall i, j | 0 <= i < j < |hands| :: hands[i] != hands[j]
    }

    function HandStrays(): seq<Option<Stray>>
      reads this, hands
    {
      seq(|hands|, i requires 0 <= i < |hands| reads this, hands => hands[i].stray)
    }

    constructor (hands: seq<Hand>)
      requires forall i, j | 0 <= i < j < |hands| :: hands[i] != hands[j]
      ensures Valid() && strays == [] && this.hands == hands
    {
      strays, lastSize := [], 0;
      this.hands := hands;
    }

    method Pop() returns (stray: Option<Stray>)
      modifies this`strays
      ensures (stray, strays) == Popped(old(strays))
    {
      if |strays| == 0 {
        return None;
      }
      stray := Some(strays[0]);
      strays := strays[1..];
    }

    /** The list fetched from the chain with its total count, or an error. */
    method RefreshList(reply: Option<(seq<Stray>, nat)>) returns (ok: bool)
      modifies this`strays, this`lastSize
      ensures ok <==> reply.Some?
      ensures strays == if reply.Some? && reply.value.0 != [] then reply.value.0 else old(strays)
      ensures lastSize == if reply.Some? then reply.value.1 else old(lastSize)
    {
      match reply
      case None =>
        return false;
      case Some((files, total)) =>
        lastSize := total;
        if |files| > 0 {
          strays := files;
        }
        return true;
    }

    /** The loop over the hands, when no hand moves meanwhile. */
    method Dispatch()
      requires Valid()
      modifies this`strays, hands
      ensures Valid() && hands == old(hands)
      ensures (HandStrays(), strays) == Served(old(HandStrays()), old(strays), |hands|)
    {
      ghost var before, list := HandStrays(), strays;
      for k := 0 to |hands|
        invariant hands == old(hands)
        invariant (HandStrays(), strays) == Served(before, list, k)
      {
        assert HandStrays()[k] == hands[k].stray;
        if hands[k].Busy() {
          continue;
        }
        ghost var sofar := HandStrays();
        var stray := Pop();
        hands[k].Take(stray);
        assert HandStrays() == sofar[k := stray];
      }
    }
  }
}
