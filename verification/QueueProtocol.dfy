/**
 * The transaction queue of queue/queue.go as a state machine. Add and the steps of
 * BroadcastPending are atomic; adds may land between any two steps of a broadcast, and only
 * one broadcast runs at a time.
 */
module QueueProtocol {
  import opened Wrappers
  import opened Text
  import opened Broadcast

  /* ---------- batch size ---------- */

  datatype Msg =
    | PostProof(creator: string, item: Bytes, hashList: Bytes, merkle: Bytes, owner: string, start: int)
    | OtherMsg(id: nat)

  function MsgSize(m: Msg): nat {
    match m
    case PostProof(creator, item, hashList, merkle, owner, _) =>
      |creator| + |item| + |hashList| + |merkle| + |owner| + 16
    case OtherMsg(_) => 500
  }

  function SumSizes(ms: seq<Msg>): nat {
    if ms == [] then 0 else SumSizes(ms[..|ms| - 1]) + MsgSize(ms[|ms| - 1])
  }

  /** The estimated transaction size; nothing for no messages. */
  function TxSize(ms: seq<Msg>): nat {
    if ms == [] then 0 else SumSizes(ms) + 500
  }

  /**
   * Nothing for no messages; else 500 for the transaction and for each message the lengths of its five
   * fields and 16, or 500.
   */
  lemma {:induction false} TxSizeGrows(ms: seq<Msg>, m: Msg)
    ensures TxSize([]) == 0
    ensures TxSize(ms + [m]) ==
            (if ms == [] then 500 else TxSize(ms)) +
            (if m.PostProof? then |m.creator| + |m.item| + |m.hashList| + |m.merkle| + |m.owner| + 16 else 500)
  {
    assert (ms + [m])[..|ms|] == ms;
  }

  const MIN_BATCH := 45

  /** Where the sizing loop stops when it has got to prefix length i. */
  function FitFrom(ms: seq<Msg>, max: int, i: nat): nat
    requires i <= |ms|
    decreases |ms| - i
  {
    if i == |ms| || TxSize(ms[..i + 1]) > max then i else FitFrom(ms, max, i + 1)
  }

  /** At least 45 messages and as many as fit, but no more than there are. */
  function BatchSize(ms: seq<Msg>, max: int): nat {
    var fit := FitFrom(ms, max, 0);
    var cutoff := if fit < MIN_BATCH then MIN_BATCH else fit;
    if cutoff > |ms| then |ms| else cutoff
  }

  /** k is the length of the largest prefix whose estimated size is within max; 0 if none is. */
  ghost predicate IsLargestFit(ms: seq<Msg>, max: int, k: nat) {
    && k <= |ms|
    && (forall j | 0 < j <= k :: TxSize(ms[..j]) <= max)
    && (forall j | k < j <= |ms| :: TxSize(ms[..j]) > max)
  }

  lemma {:induction false} SumMonotone(ms: seq<Msg>, i: nat, j: nat)
    requires i <= j <= |ms|
    ensures SumSizes(ms[..i]) <= SumSizes(ms[..j])
  {
    if i < j {
      SumMonotone(ms, i, j - 1);
      assert ms[..j][..j - 1] == ms[..j - 1];
    }
  }

  lemma {:induction false} FitFromIsLargest(ms: seq<Msg>, max: int, i: nat)
    requires i <= |ms| && forall j | 0 < j <= i :: TxSize(ms[..j]) <= max
    ensures IsLargestFit(ms, max, FitFrom(ms, max, i))
    decreases |ms| - i
  {
    if i < |ms| {
      if TxSize(ms[..i + 1]) > max {
        forall j | i < j <= |ms|
          ensures TxSize(ms[..j]) > max
        {
          SumMonotone(ms, i + 1, j);
        }
      } else {
        FitFromIsLargest(ms, max, i + 1);
      }
    }
  }

  /** The batch is min(total, max(45, K)) long, K being the one largest prefix that fits. */
  lemma {:induction false} BatchSizeIs(ms: seq<Msg>, max: int, k: nat)
    requires IsLargestFit(ms, max, k)
    ensures BatchSize(ms, max) == Min(|ms|, Max(45, k))
  {
    FitFromIsLargest(ms, max, 0);
    LargestFitLimits(ms, max, k, FitFrom(ms, max, 0));
    LargestFitLimits(ms, max, FitFrom(ms, max, 0), k);
  }

  lemma LargestFitLimits(ms: seq<Msg>, max: int, a: nat, b: nat)
    requires IsLargestFit(ms, max, a) && IsLargestFit(ms, max, b)
    ensures b <= a
  {
    var size := if b > 0 then TxSize(ms[..b]) else 0;
  }

  /* ---------- the machine ---------- */

  /**
   * A message handed to Add: its wait-group counter, the error and response that the broadcast
   * left on it, and its index, which is -1 on a refused duplicate.
   */
  datatype Ticket = Ticket(msg: Msg, waits: int, failed: bool, res: Option<Response>, index: int)

  datatype Status = InFlight | Delivered(failed: bool, res: Option<Response>) | Abandoned

  /** How messages left the queue: taken by a broadcast, or dropped by a mempool-full reset. */
  datatype Departure = Taken(ids: seq<nat>, status: Status) | Dropped(ids: seq<nat>)

  datatype Phase = Idle | Begun(total: nat) | Sending(tx: Tx)

  /** Tickets are numbered in the order of the Add calls; `accepted` and `departures` are history. */
  datatype QState = QState(
    tickets: seq<Ticket>,
    accepted: seq<nat>,
    pending: seq<nat>,
    departures: seq<Departure>,
    phase: Phase)

  const INIT := QState([], [], [], [], Idle)

  predicate SameProof(a: Msg, b: Msg) {
    && a.PostProof? && b.PostProof?
    && a.merkle == b.merkle && a.owner == b.owner && a.start == b.start
  }

  function Msgs(s: QState, ids: seq<nat>): seq<Msg>
    requires forall i | 0 <= i < |ids| :: ids[i] < |s.tickets|
  {
    seq(|ids|, i requires 0 <= i < |ids| => s.tickets[ids[i]].msg)
  }

  predicate KnownPending(s: QState) {
    forall i | 0 <= i < |s.pending| :: s.pending[i] < |s.tickets|
  }

  predicate IsDuplicate(s: QState, msg: Msg)
    requires KnownPending(s)
  {
    exists i | 0 <= i < |s.pending| :: SameProof(s.tickets[s.pending[i]].msg, msg)
  }

  datatype Step = Add(msg: Msg) | Begin | Busy | Take | Try(reply: Reply) | Finish

  /** The ids of the batch being sent. */
  function InFlightIds(s: QState): seq<nat> {
    if s.departures != [] && s.departures[|s.departures| - 1].Taken? then s.departures[|s.departures| - 1].ids else []
  }

  predicate Enabled(s: QState, step: Step) {
    match step
    case Add(_) => KnownPending(s)
    case Begin => s.phase.Idle?
    case Busy => s.phase.Begun?
    case Take => s.phase.Begun? && s.phase.total <= |s.pending| && KnownPending(s)
    case Try(_) => s.phase.Sending? && Running(s.phase.tx) && s.departures != [] && s.departures[|s.departures| - 1].Taken?
    case Finish =>
      && s.phase.Sending? && !Running(s.phase.tx)
      && s.departures != [] && s.departures[|s.departures| - 1].Taken?
      && forall i | 0 <= i < |InFlightIds(s)| :: InFlightIds(s)[i] < |s.tickets|
  }

  function DeliverTo(tickets: seq<Ticket>, id: nat, failed: bool, res: Option<Response>, index: nat): (r: seq<Ticket>)
    requires id < |tickets|
    ensures |r| == |tickets|
  {
    var t := tickets[id];
    tickets[id := Ticket(t.msg, t.waits - 1, failed, res, index)]
  }

  /** The loop over the batch: error, response, position, Done. */
  function Deliver(tickets: seq<Ticket>, ids: seq<nat>, n: nat, failed: bool, res: Option<Response>): (r: seq<Ticket>)
    requires n <= |ids| && forall i | 0 <= i < |ids| :: ids[i] < |tickets|
    ensures |r| == |tickets|
  {
    if n == 0 then tickets
    else
      DeliverTo(Deliver(tickets, ids, n - 1, failed, res), ids[n - 1], failed, res, n - 1)
  }

  function Next(max: int, s: QState, step: Step): QState
    requires Enabled(s, step)
  {
    match step
    case Add(msg) =>
      if IsDuplicate(s, msg) then s.(tickets := s.tickets + [Ticket(msg, 0, false, None, -1)])
      else
        var id := |s.tickets|;
        s.(tickets := s.tickets + [Ticket(msg, 1, false, None, 0)],
           accepted := s.accepted + [id],
           pending := s.pending + [id])
    case Begin => s.(phase := Begun(|s.pending|))
    case Busy => s.(phase := Idle)
    case Take =>
      var cutoff := BatchSize(Msgs(s, s.pending[..s.phase.total]), max);
      s.(pending := s.pending[cutoff..],
         departures := s.departures + [Taken(s.pending[..cutoff], InFlight)],
         phase := Sending(FRESH))
    case Try(reply) =>
      (match Attempt(s.phase.tx, reply)
       case Some(tx) => s.(phase := Sending(tx))
       case None =>
         s.(pending := [],
            departures := s.departures[..|s.departures| - 1] +
                          [Taken(InFlightIds(s), Abandoned), Dropped(s.pending)],
            phase := Idle))
    case Finish =>
      var failed, res := !s.phase.tx.complete, s.phase.tx.res;
      s.(tickets := Deliver(s.tickets, InFlightIds(s), |InFlightIds(s)|, failed, res),
         departures := s.departures[..|s.departures| - 1] + [Taken(InFlightIds(s), Delivered(failed, res))],
         phase := Idle)
  }

  /** The state after a run of steps, if each is enabled when its turn comes. */
  function ExecFrom(max: int, s: QState, run: seq<Step>): Option<QState> {
    if run == [] then Some(s)
    else
      match ExecFrom(max, s, run[..|run| - 1])
      case None => None
      case Some(t) =>
        if Enabled(t, run[|run| - 1]) then Some(Next(max, t, run[|run| - 1])) else None
  }

  function Exec(max: int, run: seq<Step>): Option<QState> {
    ExecFrom(max, INIT, run)
  }

  /* ---------- the invariant ---------- */

  /** The ids that have left the queue, in order. */
  function Gone(ds: seq<Departure>): seq<nat> {
    if ds == [] then [] else Gone(ds[..|ds| - 1]) + ds[|ds| - 1].ids
  }

  predicate Increasing(s: seq<nat>) {
    forall i, j | 0 <= i < j < |s| :: s[i] < s[j]
  }

  /** The tickets of a departure carry what its status says. */
  predicate Settled(tickets: seq<Ticket>, d: Departure) {
    forall i | 0 <= i < |d.ids| ::
      && d.ids[i] < |tickets|
      && (match d
          case Taken(_, Delivered(failed, res)) =>
            var t := tickets[d.ids[i]];
            t.waits == 0 && t.failed == failed && t.res == res && t.index == i
          case _ => tickets[d.ids[i]].waits == 1)
  }

  /** Accepted is what left, in order, followed by what is pending, and no id occurs twice. */
  ghost predicate InvOrder(s: QState) {
    && s.accepted == Gone(s.departures) + s.pending
    && Increasing(s.accepted)
    && (forall i | 0 <= i < |s.accepted| :: s.accepted[i] < |s.tickets|)
  }

  /** Exactly the refused tickets have index -1; they wait for nothing, pending ones for one Done. */
  ghost predicate InvTickets(s: QState) {
    && KnownPending(s)
    && (forall id | 0 <= id < |s.tickets| :: s.tickets[id].index == -1 <==> id !in s.accepted)
    && (forall id | 0 <= id < |s.tickets| :: id !in s.accepted ==> s.tickets[id].waits == 0)
    && (forall i | 0 <= i < |s.pending| :: s.tickets[s.pending[i]].waits == 1)
  }

  /** Departures carry their results; only the last can be in flight, and is exactly while sending. */
  ghost predicate InvDepartures(s: QState) {
    && (forall d | 0 <= d < |s.departures| :: Settled(s.tickets, s.departures[d]))
    && (forall d | 0 <= d < |s.departures| - 1 :: !IsInFlight(s.departures[d]))
    && (s.phase.Sending? <==> s.departures != [] && IsInFlight(s.departures[|s.departures| - 1]))
    && (s.phase.Begun? ==> s.phase.total <= |s.pending|)
  }

  /** No two pending proofs are for the same contract. */
  ghost predicate InvKeys(s: QState) {
    && KnownPending(s)
    && forall i, j | 0 <= i < j < |s.pending| ::
         !SameProof(s.tickets[s.pending[i]].msg, s.tickets[s.pending[j]].msg)
  }

  ghost predicate Inv(s: QState) {
    InvOrder(s) && InvTickets(s) && InvDepartures(s) && InvKeys(s)
  }

  predicate IsInFlight(d: Departure) {
    d.Taken? && d.status.InFlight?
  }

  lemma {:induction false} IdsAreGone(ds: seq<Departure>, d: nat, i: nat)
    requires d < |ds| && i < |ds[d].ids|
    ensures ds[d].ids[i] in Gone(ds)
  {
    var init := ds[..|ds| - 1];
    if d == |ds| - 1 {
      assert Gone(ds)[|Gone(init)| + i] == ds[d].ids[i];
    } else {
      IdsAreGone(init, d, i);
      var k :| 0 <= k < |Gone(init)| && Gone(init)[k] == ds[d].ids[i];
      assert Gone(ds)[k] == ds[d].ids[i];
    }
  }

  lemma GoneOfAppend(ds: seq<Departure>, d: Departure)
    ensures Gone(ds + [d]) == Gone(ds) + d.ids
  {
    assert (ds + [d])[..|ds|] == ds;
  }

  /** Delivering touches exactly the tickets of the batch, each once. */
  lemma {:induction false} DeliverEach(tickets: seq<Ticket>, ids: seq<nat>, n: nat, failed: bool, res: Option<Response>)
    requires n <= |ids| && (forall i | 0 <= i < |ids| :: ids[i] < |tickets|) && Increasing(ids)
    ensures DeliveredUpTo(tickets, Deliver(tickets, ids, n, failed, res), ids, n, failed, res)
  {
    if n > 0 {
      hide DeliveredUpTo, DeliverTo, Increasing;
      DeliverEach(tickets, ids, n - 1, failed, res);
      DeliverOne(tickets, Deliver(tickets, ids, n - 1, failed, res), ids, n, failed, res);
    }
  }

  ghost predicate DeliveredUpTo(tickets: seq<Ticket>, r: seq<Ticket>, ids: seq<nat>, n: nat,
                                failed: bool, res: Option<Response>)
    requires n <= |ids| && forall i | 0 <= i < |ids| :: ids[i] < |tickets|
  {
    && |r| == |tickets|
    && (forall i | 0 <= i < n :: r[ids[i]] == Ticket(tickets[ids[i]].msg, tickets[ids[i]].waits - 1, failed, res, i))
    && (forall id | 0 <= id < |tickets| && id !in ids[..n] :: r[id] == tickets[id])
  }

  lemma DeliverOne(tickets: seq<Ticket>, before: seq<Ticket>, ids: seq<nat>, n: nat, failed: bool, res: Option<Response>)
    requires 1 <= n <= |ids| && (forall i | 0 <= i < |ids| :: ids[i] < |tickets|) && Increasing(ids)
    requires DeliveredUpTo(tickets, before, ids, n - 1, failed, res)
    ensures DeliveredUpTo(tickets, DeliverTo(before, ids[n - 1], failed, res, n - 1), ids, n, failed, res)
  {
    assert ids[..n] == ids[..n - 1] + [ids[n - 1]];
    assert forall i | 0 <= i < n - 1 :: ids[i] != ids[n - 1];
    assert ids[n - 1] !in ids[..n - 1];
  }

  lemma SettledInLarger(small: seq<Ticket>, large: seq<Ticket>, d: Departure)
    requires Settled(small, d) && small <= large
    ensures Settled(large, d)
  {
    assert forall i | 0 <= i < |d.ids| :: large[d.ids[i]] == small[d.ids[i]];
  }

  lemma InvRefuse(s: QState, t: QState, ticket: Ticket)
    requires Inv(s) && t == s.(tickets := s.tickets + [ticket]) && ticket.waits == 0 && ticket.index == -1
    ensures Inv(t)
  {
    forall d | 0 <= d < |s.departures|
      ensures Settled(t.tickets, t.departures[d])
    {
      SettledInLarger(s.tickets, t.tickets, s.departures[d]);
    }
    assert |s.tickets| !in s.accepted;
  }

  lemma {:induction false} InvAccept(s: QState, t: QState, ticket: Ticket)
    requires Inv(s) && ticket.waits == 1 && ticket.index == 0
    requires t == s.(tickets := s.tickets + [ticket],
                     accepted := s.accepted + [|s.tickets|], pending := s.pending + [|s.tickets|])
    requires forall i | 0 <= i < |s.pending| :: !SameProof(s.tickets[s.pending[i]].msg, ticket.msg)
    ensures Inv(t)
  {
    var id := |s.tickets|;
    assert InvOrder(t) by {
      assert t.accepted == Gone(t.departures) + t.pending;
    }
    assert InvTickets(t) by {
      assert id !in s.accepted && id in t.accepted;
      assert forall k | 0 <= k < id :: k in t.accepted <==> k in s.accepted;
      assert forall k | 0 <= k < id :: t.tickets[k] == s.tickets[k];
    }
    assert InvDepartures(t) by {
      forall d | 0 <= d < |s.departures|
        ensures Settled(t.tickets, t.departures[d])
      {
        SettledInLarger(s.tickets, t.tickets, s.departures[d]);
      }
    }
    assert InvKeys(t);
  }

  lemma {:induction false} InvAdd(max: int, s: QState, msg: Msg)
    requires Inv(s)
    ensures Inv(Next(max, s, Add(msg)))
  {
    var t := Next(max, s, Add(msg));
    if IsDuplicate(s, msg) {
      InvRefuse(s, t, Ticket(msg, 0, false, None, -1));
    } else {
      InvAccept(s, t, Ticket(msg, 1, false, None, 0));
    }
  }

  predicate TakesPrefix(s: QState, t: QState, cutoff: nat) {
    && cutoff <= |s.pending|
    && t == s.(pending := s.pending[cutoff..],
               departures := s.departures + [Taken(s.pending[..cutoff], InFlight)], phase := Sending(FRESH))
  }

  lemma TakeKeepsOrder(s: QState, t: QState, cutoff: nat)
    requires InvOrder(s) && TakesPrefix(s, t, cutoff)
    ensures InvOrder(t)
  {
    assert s.pending == s.pending[..cutoff] + s.pending[cutoff..];
    GoneOfAppend(s.departures, Taken(s.pending[..cutoff], InFlight));
    assert t.accepted == Gone(t.departures) + t.pending;
  }

  lemma TakeKeepsDepartures(s: QState, t: QState, cutoff: nat)
    requires InvDepartures(s) && InvTickets(s) && s.phase.Begun? && TakesPrefix(s, t, cutoff)
    ensures InvDepartures(t)
  {
    assert Settled(t.tickets, Taken(s.pending[..cutoff], InFlight));
    assert forall d | 0 <= d < |s.departures| :: !IsInFlight(s.departures[d]);
    assert forall d | 0 <= d < |s.departures| :: t.departures[d] == s.departures[d];
  }

  lemma TakeKeepsPending(s: QState, t: QState, cutoff: nat)
    requires InvTickets(s) && InvKeys(s) && TakesPrefix(s, t, cutoff)
    ensures InvTickets(t) && InvKeys(t)
  {
    assert forall i | 0 <= i < |t.pending| :: t.pending[i] == s.pending[cutoff + i];
  }

  lemma InvTake(max: int, s: QState)
    requires Inv(s) && Enabled(s, Take)
    ensures Inv(Next(max, s, Take))
  {
    var t, cutoff := Next(max, s, Take), BatchSize(Msgs(s, s.pending[..s.phase.total]), max);
    TakeKeepsOrder(s, t, cutoff);
    TakeKeepsDepartures(s, t, cutoff);
    TakeKeepsPending(s, t, cutoff);
  }

  /** Replacing the status of the last departure leaves the order of departures as it was. */
  lemma GoneOfRestated(ds: seq<Departure>, d: Departure)
    requires ds != [] && ds[|ds| - 1].ids == d.ids
    ensures Gone(ds[..|ds| - 1] + [d]) == Gone(ds)
  {
    GoneOfAppend(ds[..|ds| - 1], d);
  }

  lemma InvReset(max: int, s: QState, reply: Reply)
    requires Inv(s) && Enabled(s, Try(reply)) && Attempt(s.phase.tx, reply).None?
    ensures Inv(Next(max, s, Try(reply)))
  {
    var t := Next(max, s, Try(reply));
    hide Next, Attempt;
    ResetKeepsOrder(s, t);
    ResetKeepsDepartures(s, t);
    hide Gone;
  }

  /** The state after a full mempool: the batch in flight is abandoned and the queue dropped. */
  predicate IsReset(s: QState, t: QState) {
    && s.departures != []
    && t == s.(pending := [], phase := Idle,
               departures := s.departures[..|s.departures| - 1] + [Taken(InFlightIds(s), Abandoned), Dropped(s.pending)])
  }

  lemma ResetKeepsOrder(s: QState, t: QState)
    requires InvOrder(s) && IsReset(s, t) && s.departures[|s.departures| - 1].Taken?
    ensures InvOrder(t)
  {
    var ds := s.departures;
    var abandoned := ds[..|ds| - 1] + [Taken(InFlightIds(s), Abandoned)];
    GoneOfRestated(ds, Taken(InFlightIds(s), Abandoned));
    assert t.departures == abandoned + [Dropped(s.pending)];
    GoneOfAppend(abandoned, Dropped(s.pending));
    assert t.accepted == Gone(t.departures) + t.pending;
  }

  lemma ResetKeepsDepartures(s: QState, t: QState)
    requires InvDepartures(s) && InvTickets(s) && s.phase.Sending? && IsReset(s, t)
    ensures InvDepartures(t)
  {
    var ds := s.departures;
    forall d | 0 <= d < |t.departures|
      ensures Settled(t.tickets, t.departures[d]) && !IsInFlight(t.departures[d])
    {
      if d < |ds| - 1 {
        assert t.departures[d] == ds[d];
      } else if d == |ds| - 1 {
        assert Settled(s.tickets, ds[d]);
      }
    }
  }

  lemma MiddleIsSeparate(a: seq<nat>, b: seq<nat>, c: seq<nat>)
    requires Increasing(a + b + c)
    ensures Increasing(b)
    ensures forall i | 0 <= i < |a| :: a[i] !in b
    ensures forall i | 0 <= i < |b| :: b[i] in a + b + c
    ensures forall i | 0 <= i < |c| :: c[i] !in b
  {
    var all := a + b + c;
    assert forall i | 0 <= i < |a| :: all[i] == a[i];
    assert forall i | 0 <= i < |b| :: all[|a| + i] == b[i];
    assert forall i | 0 <= i < |c| :: all[|a| + |b| + i] == c[i];
  }

  /** The ids of the batch in flight are smaller than all pending ones and larger than all gone ones. */
  lemma BatchIsSeparate(s: QState)
    requires Inv(s) && s.phase.Sending?
    ensures Increasing(InFlightIds(s))
    ensures forall i | 0 <= i < |s.pending| :: s.pending[i] !in InFlightIds(s)
    ensures forall d, i | 0 <= d < |s.departures| - 1 && 0 <= i < |s.departures[d].ids| ::
              s.departures[d].ids[i] !in InFlightIds(s)
    ensures forall i | 0 <= i < |InFlightIds(s)| :: InFlightIds(s)[i] in s.accepted
  {
    var init, ids := s.departures[..|s.departures| - 1], InFlightIds(s);
    var before := Gone(init);
    assert s.accepted == before + ids + s.pending;
    hide Gone, InvTickets, InvDepartures, InvKeys, Increasing;
    MiddleIsSeparate(before, ids, s.pending);
    forall d, i | 0 <= d < |s.departures| - 1 && 0 <= i < |s.departures[d].ids|
      ensures s.departures[d].ids[i] !in ids
    {
      IdsAreGone(init, d, i);
    }
  }

  lemma SettledElsewhere(before: seq<Ticket>, after: seq<Ticket>, ids: seq<nat>, d: Departure)
    requires Settled(before, d) && |after| == |before|
    requires forall id | 0 <= id < |before| && id !in ids :: after[id] == before[id]
    requires forall i | 0 <= i < |d.ids| :: d.ids[i] !in ids
    ensures Settled(after, d)
  {
    assert forall i | 0 <= i < |d.ids| :: after[d.ids[i]] == before[d.ids[i]];
  }

  /** What Finish does to the tickets: those of the batch are delivered, the others stay. */
  ghost predicate DeliversBatch(s: QState, t: QState, failed: bool, res: Option<Response>) {
    && s.departures != [] && |t.tickets| == |s.tickets|
    && t == s.(tickets := t.tickets, phase := Idle,
               departures := s.departures[..|s.departures| - 1] + [Taken(InFlightIds(s), Delivered(failed, res))])
    && Settled(t.tickets, Taken(InFlightIds(s), Delivered(failed, res)))
    && (forall id | 0 <= id < |s.tickets| && id !in InFlightIds(s) :: t.tickets[id] == s.tickets[id])
    && (forall id | 0 <= id < |s.tickets| :: t.tickets[id].msg == s.tickets[id].msg)
  }

  /** DeliverEach for the whole batch. */
  lemma DeliverBatch(tickets: seq<Ticket>, ids: seq<nat>, failed: bool, res: Option<Response>)
    requires (forall i | 0 <= i < |ids| :: ids[i] < |tickets|) && Increasing(ids)
    ensures var r := Deliver(tickets, ids, |ids|, failed, res);
            && (forall i | 0 <= i < |ids| ::
                  r[ids[i]] == Ticket(tickets[ids[i]].msg, tickets[ids[i]].waits - 1, failed, res, i))
            && (forall id | 0 <= id < |tickets| && id !in ids :: r[id] == tickets[id])
            && (forall id | 0 <= id < |tickets| :: r[id].msg == tickets[id].msg)
  {
    DeliverEach(tickets, ids, |ids|, failed, res);
    assert ids[..|ids|] == ids;
    forall id | 0 <= id < |tickets|
      ensures Deliver(tickets, ids, |ids|, failed, res)[id].msg == tickets[id].msg
    {
      if id in ids {
        var i :| 0 <= i < |ids| && ids[i] == id;
      }
    }
  }

  lemma FinishDelivers(max: int, s: QState)
    requires Inv(s) && Enabled(s, Finish)
    ensures DeliversBatch(s, Next(max, s, Finish), !s.phase.tx.complete, s.phase.tx.res)
  {
    hide Deliver, Gone, InvOrder, InvTickets, InvKeys;
    BatchIsSeparate(s);
    DeliverBatch(s.tickets, InFlightIds(s), !s.phase.tx.complete, s.phase.tx.res);
    assert Settled(s.tickets, s.departures[|s.departures| - 1]);
  }

  lemma FinishKeepsDepartures(s: QState, t: QState, failed: bool, res: Option<Response>)
    requires Inv(s) && s.phase.Sending? && DeliversBatch(s, t, failed, res)
    ensures InvDepartures(t)
  {
    BatchIsSeparate(s);
    forall d | 0 <= d < |s.departures| - 1
      ensures Settled(t.tickets, s.departures[d]) && !IsInFlight(s.departures[d])
    {
      SettledElsewhere(s.tickets, t.tickets, InFlightIds(s), s.departures[d]);
    }
  }

  lemma FinishKeepsTickets(s: QState, t: QState, failed: bool, res: Option<Response>)
    requires Inv(s) && s.phase.Sending? && DeliversBatch(s, t, failed, res)
    ensures InvTickets(t) && InvKeys(t)
  {
    BatchIsSeparate(s);
    assert forall i | 0 <= i < |s.pending| :: t.tickets[s.pending[i]] == s.tickets[s.pending[i]];
    forall id | 0 <= id < |t.tickets|
      ensures t.tickets[id].index == -1 <==> id !in t.accepted
      ensures id !in t.accepted ==> t.tickets[id].waits == 0
    {
      if id in InFlightIds(s) {
        var i :| 0 <= i < |InFlightIds(s)| && InFlightIds(s)[i] == id;
      }
    }
  }

  lemma InvFinish(max: int, s: QState)
    requires Inv(s) && Enabled(s, Finish)
    ensures Inv(Next(max, s, Finish))
  {
    var t, failed, res := Next(max, s, Finish), !s.phase.tx.complete, s.phase.tx.res;
    FinishDelivers(max, s);
    GoneOfRestated(s.departures, Taken(InFlightIds(s), Delivered(failed, res)));
    FinishKeepsDepartures(s, t, failed, res);
    FinishKeepsTickets(s, t, failed, res);
  }

  lemma {:induction false} InvNext(max: int, s: QState, step: Step)
    requires Inv(s) && Enabled(s, step)
    ensures Inv(Next(max, s, step))
  {
    match step
    case Add(msg) => InvAdd(max, s, msg);
    case Begin =>
    case Busy =>
    case Take => InvTake(max, s);
    case Try(reply) =>
      if Attempt(s.phase.tx, reply).None? {
        InvReset(max, s, reply);
      }
    case Finish => InvFinish(max, s);
  }

  lemma {:induction false} InvHolds(max: int, s: QState, run: seq<Step>)
    requires Inv(s) && ExecFrom(max, s, run).Some?
    ensures Inv(ExecFrom(max, s, run).value)
  {
    if run != [] {
      var init := run[..|run| - 1];
      InvHolds(max, s, init);
      InvNext(max, ExecFrom(max, s, init).value, run[|run| - 1]);
    }
  }
}
