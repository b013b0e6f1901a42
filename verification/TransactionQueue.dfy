/** The queue object of queue/queue.go, proved to follow the machine step by step. */
module TransactionQueue {
  import opened Wrappers
  import opened Text
  import opened Broadcast
  import opened QueueProtocol

  /** calculateTransactionSize. */
  method CalculateTransactionSize(messages: seq<Msg>) returns (size: nat)
    ensures size == TxSize(messages)
  {
    if messages == [] {
      return 0;
    }
    var totalSize := 0;
    var baseOverhead := 500;
    for i := 0 to |messages|
      invariant totalSize == SumSizes(messages[..i])
    {
      assert messages[..i + 1][..i] == messages[..i];
      match messages[i]
      case PostProof(creator, item, hashList, merkle, owner, _) =>
        totalSize := totalSize + (|creator| + |item| + |hashList| + |merkle| + |owner| + 16);
      case OtherMsg(_) =>
        totalSize := totalSize + 500;
    }
    assert messages[..|messages|] == messages;
    return totalSize + baseOverhead;
  }

  /** The loop that sizes the batch over the first `total` messages. */
  method Cutoff(queued: seq<Msg>, maxSizeBytes: int) returns (cutoff: nat)
    ensures cutoff == BatchSize(queued, maxSizeBytes)
    ensures exists k: nat :: IsLargestFit(queued, maxSizeBytes, k) && cutoff == Min(|queued|, Max(45, k))
  {
    var total := |queued|;
    var msgs: seq<Msg> := [];
    cutoff := 0;
    var i := 0;
    while i < total
      invariant i == cutoff <= total
      invariant msgs == queued[..i]
      invariant FitFrom(queued, maxSizeBytes, i) == FitFrom(queued, maxSizeBytes, 0)
    {
      msgs := msgs + [queued[i]];
      assert msgs == queued[..i + 1];
      var size := CalculateTransactionSize(msgs);
      if size > maxSizeBytes {
        assert FitFrom(queued, maxSizeBytes, i) == i;
        break;
      }
      cutoff := i + 1;
      i := i + 1;
    }
    assert cutoff == FitFrom(queued, maxSizeBytes, 0);
    FitFromIsLargest(queued, maxSizeBytes, 0);
    if cutoff < MIN_BATCH {
      cutoff := MIN_BATCH;
    }
    if cutoff > total {
      cutoff := total;
    }
  }

  class Message {
    const msg: Msg
    var waits: int
    var failed: bool
    var res: Option<Response>
    var index: int

    constructor (msg: Msg)
      ensures View() == Ticket(msg, 0, false, None, 0)
    {
      this.msg := msg;
      waits, failed, res, index := 0, false, None, 0;
    }

    function View(): Ticket
      reads this
    {
      Ticket(msg, waits, failed, res, index)
    }

    /** A second call would take the wait group below zero, which panics. */
    method Done()
      requires waits > 0
      modifies this`waits
      ensures waits == old(waits) - 1
    {
      waits := waits - 1;
    }
  }

  /** The loop at the end of BroadcastPending. */
  method DeliverAll(toProcess: seq<Message>, failed: bool, res: Option<Response>)
    requires forall i, j | 0 <= i < j < |toProcess| :: toProcess[i] != toProcess[j]
    requires forall i | 0 <= i < |toProcess| :: toProcess[i].waits > 0
    modifies toProcess
    ensures forall i | 0 <= i < |toProcess| ::
              toProcess[i].View() == Ticket(toProcess[i].msg, old(toProcess[i].waits) - 1, failed, res, i)
  {
    for i := 0 to |toProcess|
      invariant forall k | 0 <= k < i ::
                  toProcess[k].View() == Ticket(toProcess[k].msg, old(toProcess[k].waits) - 1, failed, res, k)
      invariant forall k | i <= k < |toProcess| :: unchanged(toProcess[k])
    {
      toProcess[i].failed := failed;
      toProcess[i].res := res;
      toProcess[i].index := i;
      toProcess[i].Done();
    }
  }

  /** A proof for the same merkle, owner and start is among these messages. */
  ghost predicate ProofQueued(messages: seq<Message>, msg: Msg) {
    msg.PostProof? && exists i | 0 <= i < |messages| ::
      && messages[i].msg.PostProof? && messages[i].msg.merkle == msg.merkle
      && messages[i].msg.owner == msg.owner && messages[i].msg.start == msg.start
  }

  /** What the Take step means for the object. */
  lemma {:induction false} TakeModel(max: int, s: QState)
    requires Inv(s) && s.phase.Begun?
    ensures KnownPending(s) && s.phase.total <= |s.pending| && Enabled(s, QueueProtocol.Take)
    ensures var t := Next(max, s, QueueProtocol.Take);
            var cutoff := BatchSize(Msgs(s, s.pending[..s.phase.total]), max);
            && Inv(t) && t.tickets == s.tickets && t.phase == Sending(FRESH)
            && cutoff <= s.phase.total
            && t.pending == s.pending[cutoff..] && InFlightIds(t) == s.pending[..cutoff]
  {
    InvNext(max, s, QueueProtocol.Take);
  }

  /** What the Finish step means for the object. */
  lemma FinishModel(max: int, s: QState)
    requires Inv(s) && s.phase.Sending? && !Running(s.phase.tx)
    ensures Enabled(s, QueueProtocol.Finish)
    ensures Increasing(InFlightIds(s))
    ensures forall i | 0 <= i < |InFlightIds(s)| ::
              InFlightIds(s)[i] < |s.tickets| && s.tickets[InFlightIds(s)[i]].waits == 1
    ensures var t := Next(max, s, QueueProtocol.Finish);
            var ids := InFlightIds(s);
            && Inv(t) && t.pending == s.pending && t.phase.Idle? && |t.tickets| == |s.tickets|
            && (forall i | 0 <= i < |ids| ::
                  t.tickets[ids[i]] == Ticket(s.tickets[ids[i]].msg, 0, !s.phase.tx.complete, s.phase.tx.res, i))
            && (forall id | 0 <= id < |s.tickets| && id !in ids :: t.tickets[id] == s.tickets[id])
  {
    assert Settled(s.tickets, s.departures[|s.departures| - 1]);
    BatchIsSeparate(s);
    InvNext(max, s, QueueProtocol.Finish);
    FinishDelivers(max, s);
  }

  /** The answer to the question for unconfirmed transactions: none, or how many there are. */
  datatype Mempool = Unreadable | Holds(total: nat)

  class Queue {
    const maxSizeBytes: int
    var messages: seq<Message>
    /** All messages ever made by Add, and the state of the machine. */
    ghost var all: seq<Message>
    ghost var model: QState

    ghost predicate Valid()
      reads this, all
    {
      && Inv(model)
      && |all| == |model.tickets|
      && (forall i, j | 0 <= i < j < |all| :: all[i] != all[j])
      && (forall i | 0 <= i < |all| :: all[i].View() == model.tickets[i])
      && Objects(model.pending, messages)
    }

    /** These objects are the messages with these ids. */
    ghost predicate Objects(ids: seq<nat>, objects: seq<Message>)
      reads this`all
    {
      && |ids| == |objects|
      && forall i | 0 <= i < |ids| :: ids[i] < |all| && objects[i] == all[ids[i]]
    }

    constructor (maxSizeBytes: int)
      ensures Valid() && model == INIT && this.maxSizeBytes == maxSizeBytes
    {
      this.maxSizeBytes := maxSizeBytes;
      messages := [];
      all := [];
      model := INIT;
    }

    /** Add's search for a queued proof of the same contract. */
    method IsQueued(msg: Msg) returns (found: bool)
      ensures found <==> ProofQueued(messages, msg)
    {
      if !msg.PostProof? {
        return false;
      }
      for i := 0 to |messages|
        invariant forall j | 0 <= j < i :: !SameProof(messages[j].msg, msg)
      {
        var queued := messages[i].msg;
        if queued.PostProof? && queued.merkle == msg.merkle && queued.start == msg.start && queued.owner == msg.owner {
          return true;
        }
      }
      return false;
    }

    method Add(msg: Msg) returns (m: Message)
      requires Valid()
      modifies this
      ensures Valid() && fresh(m)
      ensures all == old(all) + [m]
      ensures model == Next(maxSizeBytes, old(model), QueueProtocol.Add(msg))
      ensures messages == if m.index == -1 then old(messages) else old(messages) + [m]
      ensures m.msg == msg && (m.index == -1 <==> ProofQueued(old(messages), msg))
      ensures m.waits == if m.index == -1 then 0 else 1
    {
      QueuedIsPending(msg);
      hide Inv, Next, KnownPending, IsDuplicate, ProofQueued;
      m := new Message(msg);
      var found := IsQueued(msg);
      if found {
        m.index := -1;
        Record(m, msg);
        return;
      }
      m.waits := m.waits + 1;
      messages := messages + [m];
      Record(m, msg);
    }

    lemma QueuedIsPending(msg: Msg)
      requires Valid()
      ensures KnownPending(model) && (IsDuplicate(model, msg) <==> ProofQueued(messages, msg))
    {
      hide InvOrder, InvDepartures, InvKeys;
      forall i | 0 <= i < |messages|
        ensures messages[i].msg == model.tickets[model.pending[i]].msg
      {
        assert all[model.pending[i]].View() == model.tickets[model.pending[i]];
      }
    }

    /** Books a new message into the history. */
    ghost method Record(m: Message, msg: Msg)
      requires Inv(model) && |all| == |model.tickets| && m !in all
      requires forall i, j | 0 <= i < j < |all| :: all[i] != all[j]
      requires forall i | 0 <= i < |all| :: all[i].View() == model.tickets[i]
      requires KnownPending(model)
      requires m.View() == if IsDuplicate(model, msg) then Ticket(msg, 0, false, None, -1)
                           else Ticket(msg, 1, false, None, 0)
      requires |messages| == |model.pending| + if IsDuplicate(model, msg) then 0 else 1
      requires forall i | 0 <= i < |messages| :: messages[i] == if i < |model.pending| then all[model.pending[i]] else m
      modifies this`all, this`model
      ensures Valid() && all == old(all) + [m]
      ensures model == Next(maxSizeBytes, old(model), QueueProtocol.Add(msg))
    {
      InvNext(maxSizeBytes, model, QueueProtocol.Add(msg));
      all := all + [m];
      model := Next(maxSizeBytes, model, QueueProtocol.Add(msg));
    }

    /** BroadcastPending reads the queue length. */
    method Begin() returns (total: nat)
      requires Valid() && model.phase.Idle?
      modifies this`model
      ensures Valid() && total == |messages| && model.phase == Begun(total)
      ensures model == Next(maxSizeBytes, old(model), QueueProtocol.Begin)
    {
      total := |messages|;
      InvNext(maxSizeBytes, model, QueueProtocol.Begin);
      model := Next(maxSizeBytes, model, QueueProtocol.Begin);
    }

    /** The mempool could not be read or is too large. */
    method GiveUp()
      requires Valid() && model.phase.Begun?
      modifies this`model
      ensures Valid() && model == Next(maxSizeBytes, old(model), Busy) && model.phase.Idle?
    {
      InvNext(maxSizeBytes, model, Busy);
      model := Next(maxSizeBytes, model, Busy);
    }

    /** The first messages as they will be sent. */
    function FirstMsgs(total: nat): seq<Msg>
      requires total <= |messages|
      reads this
    {
      seq(total, i requires 0 <= i < total <= |messages| reads this => messages[i].msg)
    }

    lemma FirstMsgsAreModel(total: nat)
      requires Valid() && total <= |messages|
      ensures KnownPending(model) && |messages| == |model.pending|
      ensures FirstMsgs(total) == Msgs(model, model.pending[..total])
    {
      hide InvOrder, InvDepartures, InvKeys;
      forall i | 0 <= i < total
        ensures messages[i].msg == model.tickets[model.pending[i]].msg
      {
        assert all[model.pending[i]].View() == model.tickets[model.pending[i]];
      }
    }

    /** The batch leaves the queue. */
    method Take(total: nat) returns (toProcess: seq<Message>)
      requires Valid() && model.phase == Begun(total)
      modifies this`messages, this`model
      ensures Valid() && model == Next(maxSizeBytes, old(model), QueueProtocol.Take) && model.phase == Sending(FRESH)
      ensures old(messages) == toProcess + messages
      ensures Objects(InFlightIds(model), toProcess)
      ensures |toProcess| == BatchSize(old(FirstMsgs(total)), maxSizeBytes)
    {
      hide Next, Inv, BatchSize, Msgs, IsLargestFit;
      ghost var before := model;
      TakeModel(maxSizeBytes, before);
      var queued := FirstMsgs(total);
      FirstMsgsAreModel(total);
      var cutoff := Cutoff(queued, maxSizeBytes);
      toProcess := messages[..cutoff];
      messages := messages[cutoff..];
      model := Next(maxSizeBytes, before, QueueProtocol.Take);
    }

    /** One reply of the chain; a full mempool empties the queue. */
    method Try(tx: Tx, reply: Reply) returns (next: Option<Tx>)
      requires Valid() && model.phase == Sending(tx) && Running(tx)
      modifies this`messages, this`model
      ensures Valid() && next == Attempt(tx, reply)
      ensures model == Next(maxSizeBytes, old(model), QueueProtocol.Try(reply))
      ensures messages == if next.Some? then old(messages) else []
      ensures if next.Some? then model.phase == Sending(next.value) && InFlightIds(model) == InFlightIds(old(model))
              else model.phase.Idle?
      ensures next.Some? ==> next.value.attempts == tx.attempts + 1
    {
      next := Attempt(tx, reply);
      InvNext(maxSizeBytes, model, QueueProtocol.Try(reply));
      if next.None? {
        messages := [];
      }
      model := Next(maxSizeBytes, model, QueueProtocol.Try(reply));
    }

    /** Every message of the batch gets the result and its index, and is done. */
    method Finish(toProcess: seq<Message>, tx: Tx)
      requires Valid() && model.phase == Sending(tx) && !Running(tx)
      requires Objects(InFlightIds(model), toProcess)
      modifies this`model, toProcess
      ensures Valid() && model == Next(maxSizeBytes, old(model), QueueProtocol.Finish) && model.phase.Idle?
      ensures forall i | 0 <= i < |toProcess| ::
                && toProcess[i].waits == 0 && toProcess[i].failed == !tx.complete
                && toProcess[i].res == tx.res && toProcess[i].index == i
    {
      hide Next, Inv, Deliver, Settled;
      ghost var before, ids := model, InFlightIds(model);
      FinishModel(maxSizeBytes, before);
      DeliverObjects(toProcess, ids, before.tickets, !tx.complete, tx.res);
      model := Next(maxSizeBytes, before, QueueProtocol.Finish);
    }

    /** Delivering changes the objects of the batch, and no other message. */
    method DeliverObjects(toProcess: seq<Message>, ghost ids: seq<nat>, ghost tickets: seq<Ticket>,
                          failed: bool, res: Option<Response>)
      requires |all| == |tickets| && Objects(ids, toProcess) && Increasing(ids)
      requires forall i, j | 0 <= i < j < |all| :: all[i] != all[j]
      requires forall i | 0 <= i < |all| :: all[i].View() == tickets[i]
      requires forall i | 0 <= i < |ids| :: tickets[ids[i]].waits == 1
      modifies toProcess
      ensures forall i | 0 <= i < |ids| ::
                toProcess[i].View() == Ticket(tickets[ids[i]].msg, 0, failed, res, i)
      ensures forall k | 0 <= k < |all| && k !in ids :: all[k].View() == tickets[k]
    {
      forall i | 0 <= i < |toProcess|
        ensures toProcess[i].View() == tickets[ids[i]]
        ensures forall j | 0 <= j < i :: toProcess[i] != toProcess[j]
      {
        assert all[ids[i]].View() == tickets[ids[i]];
      }
      DeliverAll(toProcess, failed, res);
    }

    /** The retry loop, when no add lands inside it; none is left of the queue on a full mempool. */
    method Send(toProcess: seq<Message>, chain: Chain) returns (end: Option<Tx>)
      requires Valid() && model.phase == Sending(FRESH) && Objects(InFlightIds(model), toProcess)
      modifies this`messages, this`model
      ensures Valid() && end == Drive(chain, FRESH)
      ensures end.Some? ==>
                && !Running(end.value) && model.phase == Sending(end.value)
                && Objects(InFlightIds(model), toProcess) && messages == old(messages)
      ensures end.None? ==> model.phase.Idle? && messages == []
    {
      hide Next, Inv, Attempt;
      var tx := FRESH;
      while Running(tx)
        invariant Valid() && model.phase == Sending(tx) && tx.attempts <= MAX_ATTEMPTS
        invariant messages == old(messages) && Objects(InFlightIds(model), toProcess)
        invariant Drive(chain, tx) == Drive(chain, FRESH)
        decreases MAX_ATTEMPTS - tx.attempts
      {
        var next := Try(tx, chain(tx.attempts, tx.sequence));
        if next.None? {
          return None;
        }
        tx := next.value;
      }
      return Some(tx);
    }

    /** A whole broadcast, when no add lands inside it. */
    method BroadcastPending(mempool: Mempool, chain: Chain) returns (count: nat, err: bool)
      requires Valid() && model.phase.Idle?
      modifies this, messages
      ensures Valid() && model.phase.Idle? && all == old(all)
      ensures mempool.Unreadable? || mempool.total > 2000 ==>
                messages == old(messages) && count == 0 && (err <==> mempool.Unreadable?)
      ensures mempool.Holds? && mempool.total <= 2000 && Drive(chain, FRESH).None? ==>
                messages == [] && count == 0 && !err
      ensures mempool.Holds? && mempool.total <= 2000 && Drive(chain, FRESH).Some? ==>
                var tx := Drive(chain, FRESH).value;
                && count == BatchSize(old(FirstMsgs(|messages|)), maxSizeBytes) <= |old(messages)|
                && messages == old(messages)[count..]
                && (err <==> !tx.complete)
                && forall i | 0 <= i < count ::
                     var m := old(messages)[i];
                     m.waits == 0 && m.failed == err && m.res == tx.res && m.index == i
    {
      hide Next, Inv, Attempt, Drive, BatchSize, InFlightIds;
      ghost var first := FirstMsgs(|messages|);
      var total := Begin();
      assert FirstMsgs(total) == first;
      if mempool.Unreadable? {
        GiveUp();
        return 0, true;
      }
      if mempool.total > 2000 {
        GiveUp();
        return 0, false;
      }
      var toProcess := Take(total);
      assert old(messages)[..|toProcess|] == toProcess && old(messages)[|toProcess|..] == messages;
      var end := Send(toProcess, chain);
      if end.None? {
        return 0, false;
      }
      Finish(toProcess, end.value);
      assert forall i | 0 <= i < |toProcess| :: old(messages)[i] == toProcess[i];
      return |toProcess|, !end.value.complete;
    }
  }
}
