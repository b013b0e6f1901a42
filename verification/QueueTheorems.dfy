/** What holds in every state that any interleaving of adds and broadcasts reaches. */
module QueueTheorems {
  import opened Wrappers
  import opened Text
  import opened Broadcast
  import opened QueueProtocol

  /** The messages handed to Add during a run, in order. */
  function Added(run: seq<Step>): seq<Msg> {
    if run == [] then []
    else Added(run[..|run| - 1]) + (if run[|run| - 1].Add? then [run[|run| - 1].msg] else [])
  }

  function TicketMsgs(s: QState): seq<Msg> {
    seq(|s.tickets|, i requires 0 <= i < |s.tickets| => s.tickets[i].msg)
  }

  lemma InvAfter(max: int, run: seq<Step>)
    requires Exec(max, run).Some?
    ensures Inv(Exec(max, run).value)
  {
    InvHolds(max, INIT, run);
  }

  lemma {:induction false} TicketsAreAdds(max: int, run: seq<Step>)
    requires Exec(max, run).Some?
    ensures TicketMsgs(Exec(max, run).value) == Added(run)
  {
    if run != [] {
      var init, step := run[..|run| - 1], run[|run| - 1];
      TicketsAreAdds(max, init);
      InvAfter(max, init);
      var s := Exec(max, init).value;
      if step.Finish? {
        FinishDelivers(max, s);
      }
      assert TicketMsgs(Next(max, s, step)) == TicketMsgs(s) + (if step.Add? then [step.msg] else []);
    }
  }

  /**
   * Conservation: the accepted messages, in the order of their adds, are those taken by broadcasts
   * or dropped by resets followed by those pending. Exactly the others have index -1.
   */
  lemma {:induction false} Conservation(max: int, run: seq<Step>)
    requires Exec(max, run).Some?
    ensures var s := Exec(max, run).value;
            && s.accepted == Gone(s.departures) + s.pending
            && Increasing(s.accepted)
            && TicketMsgs(s) == Added(run)
            && (forall id: nat :: id in s.accepted <==> id < |s.tickets| && s.tickets[id].index != -1)
  {
    InvAfter(max, run);
    TicketsAreAdds(max, run);
  }

  /**
   * A wait-group counter is 0 or 1, so Done is never called twice. In a delivered batch every
   * counter is 0, all share the batch's result, and the index that PostProof takes into the response
   * data leads from each message to itself; everything else that was accepted still waits for its
   * one Done.
   */
  lemma {:induction false} DoneOnce(max: int, run: seq<Step>)
    requires Exec(max, run).Some?
    ensures var s := Exec(max, run).value;
            && (forall id | 0 <= id < |s.tickets| :: 0 <= s.tickets[id].waits <= 1)
            && (forall d | 0 <= d < |s.departures| :: Settled(s.tickets, s.departures[d]))
            && (forall d, id | 0 <= d < |s.departures| && IsDelivered(s.departures[d]) && id in s.departures[d].ids ::
                  && id < |s.tickets| && 0 <= s.tickets[id].index < |s.departures[d].ids|
                  && s.departures[d].ids[s.tickets[id].index] == id)
            && (forall i | 0 <= i < |s.pending| ::
                  s.pending[i] < |s.tickets| && s.tickets[s.pending[i]].waits == 1)
  {
    InvAfter(max, run);
    var s := Exec(max, run).value;
    forall d, id | 0 <= d < |s.departures| && IsDelivered(s.departures[d]) && id in s.departures[d].ids
      ensures id < |s.tickets| && 0 <= s.tickets[id].index < |s.departures[d].ids|
      ensures s.departures[d].ids[s.tickets[id].index] == id
    {
      var i :| 0 <= i < |s.departures[d].ids| && s.departures[d].ids[i] == id;
      assert Settled(s.tickets, s.departures[d]);
    }
    forall id | 0 <= id < |s.tickets|
      ensures 0 <= s.tickets[id].waits <= 1
    {
      CounterIsBit(s, id);
    }
  }

  predicate IsDelivered(d: Departure) {
    d.Taken? && d.status.Delivered?
  }

  lemma CounterIsBit(s: QState, id: nat)
    requires Inv(s) && id < |s.tickets|
    ensures 0 <= s.tickets[id].waits <= 1
  {
    if id in s.accepted {
      if id in s.pending {
        var i :| 0 <= i < |s.pending| && s.pending[i] == id;
        assert s.tickets[s.pending[i]].waits == 1;
      } else {
        assert id in Gone(s.departures);
        var d, i := DepartureOf(s.departures, id);
        assert Settled(s.tickets, s.departures[d]);
      }
    }
  }

  lemma {:induction false} DepartureOf(ds: seq<Departure>, id: nat) returns (d: nat, i: nat)
    requires id in Gone(ds)
    ensures d < |ds| && i < |ds[d].ids| && ds[d].ids[i] == id
  {
    var last := |ds| - 1;
    if id in ds[last].ids {
      d := last;
      i :| 0 <= i < |ds[d].ids| && ds[d].ids[i] == id;
    } else {
      d, i := DepartureOf(ds[..last], id);
    }
  }

  /* ---------- the course of a broadcast ---------- */

  /**
   * In every reachable state: an idle queue can begin a broadcast over all that is queued; begun, it
   * gives up on a busy mempool without a trace or takes a batch of at least 45, or all, from the
   * front; while it may attempt, it attempts; else it finishes, and is idle again.
   */
  lemma {:induction false} BroadcastGoesOn(max: int, run: seq<Step>, reply: Reply)
    requires Exec(max, run).Some?
    ensures var s := Exec(max, run).value;
            && (Enabled(s, Begin) <==> s.phase == Idle)
            && (Enabled(s, Busy) <==> s.phase.Begun?) && (Enabled(s, Take) <==> s.phase.Begun?)
            && (Enabled(s, Try(reply)) <==> s.phase.Sending? && !s.phase.tx.complete && s.phase.tx.attempts < 10)
            && (Enabled(s, Finish) <==> s.phase.Sending? && (s.phase.tx.complete || s.phase.tx.attempts >= 10))
            && (s.phase == Idle ==> Next(max, s, Begin) == s.(phase := Begun(|s.pending|)))
            && (s.phase.Begun? ==> Next(max, s, Busy) == s.(phase := Idle))
            && (s.phase.Begun? ==>
                  var t := Next(max, s, Take);
                  && t.tickets == s.tickets && t.phase == Sending(Tx(0, None, None, false))
                  && s.pending == InFlightIds(t) + t.pending
                  && Min(45, s.phase.total) <= |InFlightIds(t)| <= s.phase.total <= |s.pending|)
            && (Enabled(s, Try(reply)) && Attempt(s.phase.tx, reply).Some? ==>
                  Next(max, s, Try(reply)) == s.(phase := Sending(Attempt(s.phase.tx, reply).value)))
            && (Enabled(s, Finish) ==> Next(max, s, Finish).phase == Idle && Next(max, s, Finish).pending == s.pending)
  {
    InvAfter(max, run);
    var s := Exec(max, run).value;
    if s.phase.Sending? {
      BatchIsSeparate(s);
    } else if s.phase.Begun? {
      TakeSplits(max, s);
    }
    hide Gone, InvOrder, InvKeys, Deliver, BatchSize, Msgs, Settled, Attempt;
  }

  lemma TakeSplits(max: int, s: QState)
    requires Inv(s) && s.phase.Begun?
    ensures Enabled(s, Take)
    ensures var t := Next(max, s, Take);
            && t.tickets == s.tickets && t.phase == Sending(Tx(0, None, None, false))
            && s.pending == InFlightIds(t) + t.pending
            && Min(45, s.phase.total) <= |InFlightIds(t)| <= s.phase.total <= |s.pending|
  {
    hide InvOrder, InvKeys, Settled, FitFrom, TxSize;
    var cutoff := BatchSize(Msgs(s, s.pending[..s.phase.total]), max);
    assert s.pending == s.pending[..cutoff] + s.pending[cutoff..];
  }

  /* ---------- runs without a reset ---------- */

  predicate Resets(s: QState, step: Step) {
    step.Try? && s.phase.Sending? && Attempt(s.phase.tx, step.reply).None?
  }

  /** No step of the run meets a full mempool. */
  predicate NoReset(max: int, s: QState, run: seq<Step>) {
    run == [] ||
    (NoReset(max, s, run[..|run| - 1]) &&
     (ExecFrom(max, s, run[..|run| - 1]).Some? ==>
        !Resets(ExecFrom(max, s, run[..|run| - 1]).value, run[|run| - 1])))
  }

  /** Without a reset nothing is dropped or abandoned: each batch is delivered, or is the one in flight. */
  lemma {:induction false} EveryBatchDelivered(max: int, run: seq<Step>)
    requires Exec(max, run).Some? && NoReset(max, INIT, run)
    ensures var s := Exec(max, run).value;
            forall d | 0 <= d < |s.departures| ::
              && s.departures[d].Taken?
              && (s.departures[d].status.Delivered? || (s.phase.Sending? && d == |s.departures| - 1))
  {
    if run != [] {
      var init := run[..|run| - 1];
      EveryBatchDelivered(max, init);
      InvAfter(max, init);
      InvAfter(max, run);
    }
  }

  /* ---------- lost messages ---------- */

  predicate Strands(d: Departure) {
    d.Dropped? || d.status.Abandoned?
  }

  /** The message left the queue by a reset. */
  ghost predicate Lost(s: QState, id: nat) {
    exists d | 0 <= d < |s.departures| :: Strands(s.departures[d]) && id in s.departures[d].ids
  }

  ghost predicate Received(s: QState, id: nat) {
    exists d | 0 <= d < |s.departures| :: IsDelivered(s.departures[d]) && id in s.departures[d].ids
  }

  /** A step loses exactly what is pending or in flight when it meets a full mempool. */
  lemma {:induction false} LostByStep(max: int, s: QState, step: Step, id: nat)
    requires Inv(s) && Enabled(s, step)
    ensures Lost(Next(max, s, step), id) <==>
            Lost(s, id) || (Resets(s, step) && (id in s.pending || id in InFlightIds(s)))
  {
    hide Gone, Settled, InvOrder, InvTickets, InvKeys, Deliver, BatchSize, Msgs;
    var t := Next(max, s, step);
    var last := |s.departures| - 1;
    if Lost(s, id) {
      var d :| 0 <= d < |s.departures| && Strands(s.departures[d]) && id in s.departures[d].ids;
      assert t.departures[d] == s.departures[d];
    }
    if Resets(s, step) {
      assert t.departures[last] == Taken(InFlightIds(s), Abandoned) && t.departures[last + 1] == Dropped(s.pending);
    }
    if Lost(t, id) {
      var d :| 0 <= d < |t.departures| && Strands(t.departures[d]) && id in t.departures[d].ids;
      assert d < last ==> t.departures[d] == s.departures[d];
    }
  }

  /** Some step of the run met a full mempool while the message was pending or in flight. */
  ghost predicate CaughtByReset(max: int, run: seq<Step>, id: nat) {
    exists n | 0 <= n < |run| ::
      && Exec(max, run[..n]).Some?
      && Resets(Exec(max, run[..n]).value, run[n])
      && (id in Exec(max, run[..n]).value.pending || id in InFlightIds(Exec(max, run[..n]).value))
  }

  lemma {:induction false} LostIff(max: int, run: seq<Step>, id: nat)
    requires Exec(max, run).Some?
    ensures Lost(Exec(max, run).value, id) <==> CaughtByReset(max, run, id)
  {
    if run != [] {
      hide Inv, Next, Resets, Lost, InFlightIds, Enabled;
      var init := run[..|run| - 1];
      InvAfter(max, init);
      LostIff(max, init, id);
      LostByStep(max, Exec(max, init).value, run[|run| - 1], id);
      CaughtLater(max, run, id);
      hide CaughtByReset;
    }
  }

  lemma CaughtLater(max: int, run: seq<Step>, id: nat)
    requires run != [] && Exec(max, run[..|run| - 1]).Some?
    ensures var init := run[..|run| - 1];
            CaughtByReset(max, run, id) <==>
            || CaughtByReset(max, init, id)
            || (Resets(Exec(max, init).value, run[|run| - 1]) &&
                (id in Exec(max, init).value.pending || id in InFlightIds(Exec(max, init).value)))
  {
    hide Exec, Resets, InFlightIds;
    var init, last := run[..|run| - 1], |run| - 1;
    assert forall n | 0 <= n < |init| :: init[..n] == run[..n] && init[n] == run[n];
    assert run[..last] == init;
  }

  /** Once lost, whatever happens next, a message stays lost and its counter stays at 1. */
  lemma {:induction false} LostForever(max: int, s: QState, run: seq<Step>, id: nat)
    requires Inv(s) && Lost(s, id) && ExecFrom(max, s, run).Some?
    ensures var t := ExecFrom(max, s, run).value;
            Lost(t, id) && id < |t.tickets| && t.tickets[id].waits == 1
  {
    if run == [] {
      LostWaits(s, id);
    } else {
      hide Inv, Next, Resets, Lost, InFlightIds, Enabled;
      var init := run[..|run| - 1];
      LostForever(max, s, init, id);
      InvHolds(max, s, init);
      InvHolds(max, s, run);
      LostByStep(max, ExecFrom(max, s, init).value, run[|run| - 1], id);
      LostWaits(ExecFrom(max, s, run).value, id);
    }
  }

  lemma LostWaits(s: QState, id: nat)
    requires Inv(s) && Lost(s, id)
    ensures id < |s.tickets| && s.tickets[id].waits == 1
  {
    var d :| 0 <= d < |s.departures| && Strands(s.departures[d]) && id in s.departures[d].ids;
    assert Settled(s.tickets, s.departures[d]);
  }

  /**
   * An accepted message has had its Done exactly if its batch was delivered, and else it is pending
   * or in flight, unless a reset caught it; then it waits in every continuation of the run.
   */
  lemma {:induction false} DoneUnlessCaught(max: int, run: seq<Step>, id: nat)
    requires Exec(max, run).Some? && id in Exec(max, run).value.accepted
    ensures var s := Exec(max, run).value;
            && id < |s.tickets|
            && (s.tickets[id].waits == 0 <==> Received(s, id))
            && (CaughtByReset(max, run, id) <==>
                  !(Received(s, id) || id in s.pending || (s.phase.Sending? && id in InFlightIds(s))))
            && (CaughtByReset(max, run, id) ==>
                  forall more | ExecFrom(max, s, more).Some? ::
                    var t := ExecFrom(max, s, more).value; id < |t.tickets| && t.tickets[id].waits == 1)
  {
    InvAfter(max, run);
    LostIff(max, run, id);
    var s := Exec(max, run).value;
    hide Exec, ExecFrom, CaughtByReset;
    FateOf(s, id);
    if Lost(s, id) {
      forall more | ExecFrom(max, s, more).Some?
        ensures var t := ExecFrom(max, s, more).value; id < |t.tickets| && t.tickets[id].waits == 1
      {
        LostForever(max, s, more, id);
      }
    }
  }

  lemma {:induction false} FateOf(s: QState, id: nat)
    requires Inv(s) && id in s.accepted
    ensures id < |s.tickets|
    ensures s.tickets[id].waits == 0 <==> Received(s, id)
    ensures Lost(s, id) <==> !(Received(s, id) || id in s.pending || (s.phase.Sending? && id in InFlightIds(s)))
  {
    var last := |s.departures| - 1;
    GoneIsNotPending(s, id);
    if id in s.pending {
      var i :| 0 <= i < |s.pending| && s.pending[i] == id;
      assert s.tickets[s.pending[i]].waits == 1;
      forall d | 0 <= d < |s.departures|
        ensures id !in s.departures[d].ids
      {
        NotGoneNowhere(s.departures, d, id);
      }
    } else {
      var d, i := DepartureOf(s.departures, id);
      assert Settled(s.tickets, s.departures[d]);
      OneDeparture(s, id, d);
    }
  }

  lemma NotGoneNowhere(ds: seq<Departure>, d: nat, id: nat)
    requires d < |ds| && id !in Gone(ds)
    ensures id !in ds[d].ids
  {
    if id in ds[d].ids {
      var i :| 0 <= i < |ds[d].ids| && ds[d].ids[i] == id;
      IdsAreGone(ds, d, i);
    }
  }

  /** Departures share no message. */
  lemma OneDeparture(s: QState, id: nat, d: nat)
    requires InvOrder(s) && d < |s.departures| && id in s.departures[d].ids
    ensures forall e | 0 <= e < |s.departures| && id in s.departures[e].ids :: e == d
  {
    assert Increasing(Gone(s.departures)) by {
      assert forall i | 0 <= i < |Gone(s.departures)| :: s.accepted[i] == Gone(s.departures)[i];
    }
    DeparturesDisjoint(s.departures, id, d);
  }

  lemma {:induction false} DeparturesDisjoint(ds: seq<Departure>, id: nat, d: nat)
    requires Increasing(Gone(ds)) && d < |ds| && id in ds[d].ids
    ensures forall e | 0 <= e < |ds| && id in ds[e].ids :: e == d
  {
    var init, last := ds[..|ds| - 1], ds[|ds| - 1].ids;
    assert Gone(ds) == Gone(init) + last;
    assert Increasing(Gone(init)) by {
      assert forall i | 0 <= i < |Gone(init)| :: Gone(ds)[i] == Gone(init)[i];
    }
    if id in last {
      assert id !in Gone(init) by {
        var j :| 0 <= j < |last| && last[j] == id;
        assert Gone(ds)[|Gone(init)| + j] == id;
        assert forall i | 0 <= i < |Gone(init)| :: Gone(ds)[i] == Gone(init)[i];
      }
      forall e | 0 <= e < |init|
        ensures id !in ds[e].ids
      {
        NotGoneNowhere(init, e, id);
        assert init[e] == ds[e];
      }
    } else {
      DeparturesDisjoint(init, id, d);
    }
  }

  const FULL := Failure("mempool is full", None)

  lemma FullMempoolResets(tx: Tx)
    ensures Attempt(tx, FULL).None?
  {
    if Contains("mempool is full", IN_CACHE) {
      ContainedIsShorter("mempool is full", IN_CACHE);
    }
  }

  predicate Steps(max: int, s: QState, step: Step, t: QState) {
    Enabled(s, step) && Next(max, s, step) == t
  }

  /** A run is executed along these states. */
  lemma {:induction false} ExecAlong(max: int, run: seq<Step>, states: seq<QState>)
    requires |states| == |run| + 1 && states[0] == INIT
    requires forall i | 0 <= i < |run| :: Steps(max, states[i], run[i], states[i + 1])
    ensures Exec(max, run) == Some(states[|run|])
  {
    if run != [] {
      ExecAlong(max, run[..|run| - 1], states[..|run|]);
      assert Steps(max, states[|run| - 1], run[|run| - 1], states[|run|]);
    }
  }

  /** Two equal messages: the first in flight, the second added after it was taken. */
  function OneSent(m: Msg, phase: Phase, second: bool): QState {
    var first := Ticket(m, 1, false, None, 0);
    match phase
    case Sending(_) =>
      if second then QState([first, first], [0, 1], [1], [Taken([0], InFlight)], phase)
      else QState([first], [0], [], [Taken([0], InFlight)], phase)
    case _ => QState([first], [0], [0], [], phase)
  }

  lemma StepsOfOneSent(max: int, m: Msg)
    ensures Steps(max, INIT, Add(m), OneSent(m, Idle, false))
    ensures Steps(max, OneSent(m, Idle, false), Begin, OneSent(m, Begun(1), false))
    ensures Steps(max, OneSent(m, Begun(1), false), Take, OneSent(m, Sending(FRESH), false))
    ensures Steps(max, OneSent(m, Sending(FRESH), false), Add(m), OneSent(m, Sending(FRESH), true))
  {
    var begun := OneSent(m, Begun(1), false);
    assert begun.pending[..1] == [0] && BatchSize(Msgs(begun, [0]), max) == 1;
  }

  lemma ResetOfOneSent(max: int, m: Msg) returns (t: QState)
    ensures Steps(max, OneSent(m, Sending(FRESH), true), Try(FULL), t)
    ensures t.accepted == [0, 1] && Lost(t, 0) && Lost(t, 1)
  {
    FullMempoolResets(FRESH);
    t := Next(max, OneSent(m, Sending(FRESH), true), Try(FULL));
    assert t.departures == [Taken([0], Abandoned), Dropped([1])];
    assert 0 in t.departures[0].ids && 1 in t.departures[1].ids;
  }

  /** A run in which a full mempool strands one message in flight and one that was added meanwhile. */
  lemma {:induction false} FullMempoolStrands(max: int, m: Msg)
    ensures var run := [Add(m), Begin, Take, Add(m), Try(FULL)];
            && Exec(max, run).Some?
            && Exec(max, run).value.accepted == [0, 1]
            && Lost(Exec(max, run).value, 0) && Lost(Exec(max, run).value, 1)
  {
    hide Exec, Steps, Lost, OneSent;
    var added, begun := OneSent(m, Idle, false), OneSent(m, Begun(1), false);
    var taken, sent := OneSent(m, Sending(FRESH), false), OneSent(m, Sending(FRESH), true);
    StepsOfOneSent(max, m);
    var reset := ResetOfOneSent(max, m);
    ExecAlong(max, [Add(m), Begin, Take, Add(m), Try(FULL)], [INIT, added, begun, taken, sent, reset]);
  }

  /* ---------- duplicates ---------- */

  /** A proof for the same merkle, owner and start is pending. */
  ghost predicate ProofPending(s: QState, msg: Msg) {
    msg.PostProof? && exists i | 0 <= i < |s.pending| ::
      && s.pending[i] < |s.tickets|
      && var queued := s.tickets[s.pending[i]].msg;
         queued.PostProof? && queued.merkle == msg.merkle && queued.owner == msg.owner && queued.start == msg.start
  }

  /**
   * After every run Add answers at once. It refuses a message, with index -1 and nothing to wait
   * for, exactly if a proof for the same merkle, owner and start is pending; any other message goes
   * to the end of the queue and waits for one Done. Nothing else changes.
   */
  lemma {:induction false} AddOutcome(max: int, run: seq<Step>, msg: Msg)
    requires Exec(max, run).Some?
    ensures Exec(max, run + [Add(msg)]).Some?
    ensures var s, t := Exec(max, run).value, Exec(max, run + [Add(msg)]).value;
            var id := |s.tickets|;
            && |t.tickets| == id + 1 && t.tickets[..id] == s.tickets && t.tickets[id].msg == msg
            && !t.tickets[id].failed && t.tickets[id].res == None
            && (t.tickets[id].index == -1 <==> ProofPending(s, msg))
            && (ProofPending(s, msg) ==> t.tickets[id].waits == 0 && t.pending == s.pending && t.accepted == s.accepted)
            && (!ProofPending(s, msg) ==>
                  t.tickets[id].waits == 1 && t.pending == s.pending + [id] && t.accepted == s.accepted + [id])
            && t.departures == s.departures && t.phase == s.phase
  {
    InvAfter(max, run);
    var s := Exec(max, run).value;
    assert (run + [Add(msg)])[..|run|] == run;
    hide Inv;
    assert IsDuplicate(s, msg) <==> ProofPending(s, msg);
  }

  /**
   * In every reachable state the pending proofs are for pairwise distinct contracts, and a refused
   * duplicate, recognised by its index -1, blocks nobody who waits for it.
   */
  lemma {:induction false} NoDuplicatePending(max: int, run: seq<Step>)
    requires Exec(max, run).Some?
    ensures var s := Exec(max, run).value;
            && KnownPending(s)
            && (forall i, j | 0 <= i < j < |s.pending| ::
                  !SameProof(s.tickets[s.pending[i]].msg, s.tickets[s.pending[j]].msg))
            && (forall id | 0 <= id < |s.tickets| && s.tickets[id].index == -1 :: s.tickets[id].waits == 0)
  {
    InvAfter(max, run);
  }

  /* ---------- bounded waiting ---------- */

  /** How many batches a run takes. */
  function Takes(run: seq<Step>): nat {
    if run == [] then 0
    else Takes(run[..|run| - 1]) + (if run[|run| - 1].Take? then 1 else 0)
  }

  /** The message is still queued at a position at most `limit`, inside what a begun broadcast sees. */
  ghost predicate QueuedWithin(s: QState, id: nat, limit: int) {
    exists q | 0 <= q < |s.pending| ::
      s.pending[q] == id && q <= limit && (s.phase.Begun? ==> q < s.phase.total)
  }

  lemma TakeAdvances(max: int, s: QState, id: nat, limit: int)
    requires Inv(s) && Enabled(s, Take) && QueuedWithin(s, id, limit)
    ensures var t := Next(max, s, Take);
            QueuedWithin(t, id, limit - 45) || id in InFlightIds(t)
  {
    hide Inv, FitFrom, TxSize;
    var q :| 0 <= q < |s.pending| && s.pending[q] == id && q <= limit && q < s.phase.total;
    var t := Next(max, s, Take);
    var cutoff := BatchSize(Msgs(s, s.pending[..s.phase.total]), max);
    assert cutoff >= Min(45, s.phase.total);
    hide BatchSize, Msgs;
    if q < cutoff {
      assert s.pending[..cutoff][q] == id;
    } else {
      assert t.pending[q - cutoff] == id;
    }
  }

  ghost predicate QueuedOrGone(s: QState, id: nat, limit: int) {
    QueuedWithin(s, id, limit) || id in Gone(s.departures)
  }

  lemma WaitingStep(max: int, s: QState, step: Step, id: nat, limit: int)
    requires Inv(s) && Enabled(s, step) && !Resets(s, step)
    requires QueuedOrGone(s, id, limit)
    ensures QueuedOrGone(Next(max, s, step), id, limit - if step.Take? then 45 else 0)
  {
    var t := Next(max, s, step);
    if id in Gone(s.departures) {
      hide Next, Inv;
      GoneGrows(max, s, step, id);
    } else if step.Take? {
      TakeAdvances(max, s, id, limit);
      GoneOfAppend(s.departures, t.departures[|s.departures|]);
    } else {
      hide Inv, Deliver, BatchSize;
      var q :| 0 <= q < |s.pending| && s.pending[q] == id && q <= limit && (s.phase.Begun? ==> q < s.phase.total);
      assert t.pending[q] == id;
    }
  }

  lemma LastStep(max: int, s: QState, run: seq<Step>) returns (t: QState)
    requires run != [] && ExecFrom(max, s, run).Some? && NoReset(max, s, run) && Inv(s)
    ensures ExecFrom(max, s, run[..|run| - 1]) == Some(t) && NoReset(max, s, run[..|run| - 1])
    ensures Inv(t) && Enabled(t, run[|run| - 1]) && !Resets(t, run[|run| - 1])
    ensures ExecFrom(max, s, run).value == Next(max, t, run[|run| - 1])
  {
    InvHolds(max, s, run[..|run| - 1]);
    t := ExecFrom(max, s, run[..|run| - 1]).value;
  }

  lemma {:induction false} WaitingAdvances(max: int, s: QState, run: seq<Step>, id: nat, p: nat)
    requires Inv(s) && QueuedOrGone(s, id, p)
    requires ExecFrom(max, s, run).Some? && NoReset(max, s, run)
    ensures QueuedOrGone(ExecFrom(max, s, run).value, id, p - 45 * Takes(run))
  {
    if run != [] {
      var t := LastStep(max, s, run);
      WaitingAdvances(max, s, run[..|run| - 1], id, p);
      WaitingStep(max, t, run[|run| - 1], id, p - 45 * Takes(run[..|run| - 1]));
    }
  }

  lemma {:induction false} GoneGrows(max: int, s: QState, step: Step, id: nat)
    requires Inv(s) && Enabled(s, step) && id in Gone(s.departures)
    ensures id in Gone(Next(max, s, step).departures)
  {
    var t := Next(max, s, step);
    var d, i := DepartureOf(s.departures, id);
    assert t.departures[d].ids == s.departures[d].ids;
    IdsAreGone(t.departures, d, i);
  }

  /** Without a reset, earlier departures keep their ids and every new one is a taken batch. */
  lemma {:induction false} NewDeparturesAreTaken(max: int, s: QState, run: seq<Step>)
    requires Inv(s) && ExecFrom(max, s, run).Some? && NoReset(max, s, run)
    ensures var t := ExecFrom(max, s, run).value;
            && |s.departures| <= |t.departures|
            && (forall d | 0 <= d < |s.departures| :: t.departures[d].ids == s.departures[d].ids)
            && (forall d | |s.departures| <= d < |t.departures| :: t.departures[d].Taken?)
  {
    if run != [] {
      hide Inv, BatchSize, Msgs, Deliver, Attempt;
      NewDeparturesAreTaken(max, s, run[..|run| - 1]);
      var t := LastStep(max, s, run);
    }
  }

  /**
   * Bounded waiting: a message at position p before a broadcast begins is in a batch taken since
   * once p / 45 + 1 batches have been taken, whatever is added meanwhile, unless a reset comes first.
   */
  lemma {:induction false} BoundedWaiting(max: int, before: seq<Step>, run: seq<Step>, p: nat) returns (d: nat)
    requires Exec(max, before).Some? && Exec(max, before).value.phase.Idle?
    requires p < |Exec(max, before).value.pending|
    requires ExecFrom(max, Exec(max, before).value, run).Some? && NoReset(max, Exec(max, before).value, run)
    requires Takes(run) >= p / 45 + 1
    ensures var s := Exec(max, before).value;
            var t := ExecFrom(max, s, run).value;
            && |s.departures| <= d < |t.departures| && t.departures[d].Taken?
            && s.pending[p] in t.departures[d].ids && s.pending[p] !in t.pending
  {
    var s := Exec(max, before).value;
    var t := ExecFrom(max, s, run).value;
    var i: nat;
    InvAfter(max, before);
    InvHolds(max, s, run);
    assert QueuedWithin(s, s.pending[p], p);
    WaitingAdvances(max, s, run, s.pending[p], p);
    GoneIsNotPending(t, s.pending[p]);
    GoneIsNotPending(s, s.pending[p]);
    NewDeparturesAreTaken(max, s, run);
    d, i := DepartureOf(t.departures, s.pending[p]);
    if d < |s.departures| {
      IdsAreGone(s.departures, d, i);
      assert false;
    }
  }

  lemma GoneIsNotPending(s: QState, id: nat)
    requires Inv(s)
    ensures id in Gone(s.departures) ==> id !in s.pending
  {
    var gone := Gone(s.departures);
    assert forall i | 0 <= i < |gone| :: s.accepted[i] == gone[i];
    assert forall i | 0 <= i < |s.pending| :: s.accepted[|gone| + i] == s.pending[i];
  }
}
