/** The stray manager and its hands: strays/manager.go and strays/hands.go. */
module Strays {
  import opened Wrappers
  import opened Text
  import opened QueueProtocol
  import opened QueueTheorems

  /** The fields of an open file that a hand works with. */
  datatype Stray = Stray(merkle: Bytes, owner: string, start: int)

  /** Pop: the first stray, or nil, and what is left. */
  function Popped(strays: seq<Stray>): (Option<Stray>, seq<Stray>) {
    if strays == [] then (None, strays) else (Some(strays[0]), strays[1..])
  }

  /* ---------- the machine ---------- */

  datatype Pc = Resting | Working | Waiting(ticket: nat)

  /** A hand's stray, where its loop is, and the tickets of all messages it ever queued. */
  datatype HandState = HandState(stray: Option<Stray>, pc: Pc, posted: seq<nat>)

  /** The manager sleeps, looks at hand k, or found hand k free. */
  datatype Cursor = Asleep | At(k: nat) | Free(k: nat)

  /** `refreshed` and `handed`: the list last fetched, and what was handed out of it since. */
  datatype Sys = Sys(queue: QState, strays: seq<Stray>, refreshed: seq<Stray>, handed: seq<Stray>,
                     hands: seq<HandState>, cursor: Cursor)

  function Init(handCount: nat): Sys {
    Sys(INIT, [], [], [], seq(handCount, _ => HandState(None, Resting, [])), Asleep)
  }

  datatype Event =
    | QueueStep(step: Step)
    | Refresh(files: seq<Stray>)
    | Dispatch
    | Look
    | Give
    | Pick(k: nat)
    | Fail(k: nat)
    | Post(k: nat, creator: string, item: Bytes, hashList: Bytes)
    | Wake(k: nat)

  predicate CanHappen(s: Sys, e: Event) {
    match e
    case QueueStep(step) => Enabled(s.queue, step)
    case Refresh(_) => s.cursor.Asleep?
    case Dispatch => s.cursor.Asleep?
    case Look => s.cursor.At? && s.cursor.k <= |s.hands|
    case Give => s.cursor.Free? && s.cursor.k < |s.hands|
    case Pick(k) => k < |s.hands| && s.hands[k].pc.Resting? && s.hands[k].stray.Some?
    case Fail(k) => k < |s.hands| && s.hands[k].pc.Working?
    case Post(k, _, _, _) =>
      k < |s.hands| && s.hands[k].pc.Working? && s.hands[k].stray.Some? && KnownPending(s.queue)
    case Wake(k) =>
      && k < |s.hands| && s.hands[k].pc.Waiting?
      && s.hands[k].pc.ticket < |s.queue.tickets| && s.queue.tickets[s.hands[k].pc.ticket].waits == 0
  }

  /** The message that hand k queues for its stray. */
  function ProofOf(s: Sys, e: Event): Msg
    requires e.Post? && CanHappen(s, e)
  {
    var stray := s.hands[e.k].stray.value;
    PostProof(e.creator, e.item, e.hashList, stray.merkle, stray.owner, stray.start)
  }

  function Happen(max: int, s: Sys, e: Event): Sys
    requires CanHappen(s, e)
  {
    match e
    case QueueStep(step) => s.(queue := Next(max, s.queue, step))
    case Refresh(files) => if files == [] then s else s.(strays := files, refreshed := files, handed := [])
    case Dispatch => s.(cursor := At(0))
    case Look =>
      var k := s.cursor.k;
      if k == |s.hands| then s.(cursor := Asleep)
      else if s.hands[k].stray.Some? then s.(cursor := At(k + 1))
      else s.(cursor := Free(k))
    case Give =>
      var k := s.cursor.k;
      var (stray, rest) := Popped(s.strays);
      s.(strays := rest,
         handed := s.handed + (if stray.Some? then [stray.value] else []),
         hands := s.hands[k := s.hands[k].(stray := stray)],
         cursor := At(k + 1))
    case Pick(k) => s.(hands := s.hands[k := s.hands[k].(pc := Working)])
    case Fail(k) => s.(hands := s.hands[k := s.hands[k].(pc := Resting, stray := None)])
    case Post(k, _, _, _) =>
      var id := |s.queue.tickets|;
      s.(queue := Next(max, s.queue, Add(ProofOf(s, e))),
         hands := s.hands[k := s.hands[k].(pc := Waiting(id), posted := s.hands[k].posted + [id])])
    case Wake(k) => s.(hands := s.hands[k := s.hands[k].(pc := Resting, stray := None)])
  }

  function Run(max: int, handCount: nat, run: seq<Event>): Option<Sys> {
    if run == [] then Some(Init(handCount))
    else
      match Run(max, handCount, run[..|run| - 1])
      case None => None
      case Some(s) =>
        if CanHappen(s, run[|run| - 1]) then Some(Happen(max, s, run[|run| - 1])) else None
  }

  /* ---------- the invariant ---------- */

  /** Every message that the hand queued is done, except the one it waits for. */
  ghost predicate HandInv(tickets: seq<Ticket>, h: HandState) {
    && (!h.pc.Resting? ==> h.stray.Some?)
    && (forall i | 0 <= i < |h.posted| :: h.posted[i] < |tickets|)
    && (forall i | 0 <= i < |h.posted| :: tickets[h.posted[i]].waits == 0 || h.pc == Waiting(h.posted[i]))
    && (h.pc.Waiting? ==> h.pc.ticket in h.posted)
  }

  ghost predicate SysInv(s: Sys) {
    && Inv(s.queue)
    && (forall k | 0 <= k < |s.hands| :: HandInv(s.queue.tickets, s.hands[k]))
    && (s.cursor.At? ==> s.cursor.k <= |s.hands|)
    && (s.cursor.Free? ==> s.cursor.k < |s.hands| && s.hands[s.cursor.k].stray.None?)
    && s.refreshed == s.handed + s.strays
  }

  /** A counter at 0 stays at 0. */
  ghost predicate StaysDone(small: seq<Ticket>, large: seq<Ticket>) {
    && |small| <= |large|
    && forall id | 0 <= id < |small| && small[id].waits == 0 :: large[id].waits == 0
  }

  lemma QueueStaysDone(max: int, s: QState, step: Step)
    requires Inv(s) && Enabled(s, step)
    ensures StaysDone(s.tickets, Next(max, s, step).tickets)
  {
    if step.Finish? {
      FinishDelivers(max, s);
      assert Settled(s.tickets, s.departures[|s.departures| - 1]);
    }
  }

  lemma HandInvStays(small: seq<Ticket>, large: seq<Ticket>, h: HandState)
    requires HandInv(small, h) && StaysDone(small, large)
    ensures HandInv(large, h)
  {
  }

  lemma QueueKeepsSysInv(max: int, s: Sys, step: Step, t: Sys)
    requires SysInv(s) && Enabled(s.queue, step) && t == s.(queue := Next(max, s.queue, step))
    ensures SysInv(t)
  {
    InvNext(max, s.queue, step);
    QueueStaysDone(max, s.queue, step);
    forall k | 0 <= k < |s.hands|
      ensures HandInv(t.queue.tickets, t.hands[k])
    {
      HandInvStays(s.queue.tickets, t.queue.tickets, s.hands[k]);
    }
  }

  lemma HandStepKeepsSysInv(s: Sys, t: Sys, k: nat)
    requires SysInv(s) && k < |s.hands| && t == s.(hands := t.hands) && |t.hands| == |s.hands|
    requires forall i | 0 <= i < |s.hands| && i != k :: t.hands[i] == s.hands[i]
    requires HandInv(s.queue.tickets, t.hands[k])
    requires s.cursor == Free(k) ==> t.hands[k].stray.None?
    ensures SysInv(t)
  {
  }

  lemma {:induction false} PostKeepsSysInv(max: int, s: Sys, e: Event)
    requires SysInv(s) && e.Post? && CanHappen(s, e)
    ensures SysInv(Happen(max, s, e))
  {
    var t := Happen(max, s, e);
    var u := s.(queue := t.queue);
    QueueKeepsSysInv(max, s, Add(ProofOf(s, e)), u);
    assert HandInv(u.queue.tickets, u.hands[e.k]);
    var h := t.hands[e.k];
    assert HandInv(u.queue.tickets, h) by {
      assert h.posted[|h.posted| - 1] == h.pc.ticket;
      assert h.posted[..|h.posted| - 1] == u.hands[e.k].posted;
    }
    HandStepKeepsSysInv(u, t, e.k);
  }

  lemma HappenKeepsSysInv(max: int, s: Sys, e: Event)
    requires SysInv(s) && CanHappen(s, e)
    ensures SysInv(Happen(max, s, e))
  {
    hide Next, Inv;
    var t := Happen(max, s, e);
    match e
    case QueueStep(step) => QueueKeepsSysInv(max, s, step, t);
    case Refresh(files) =>
    case Dispatch =>
    case Look =>
    case Give =>
      var k := s.cursor.k;
      assert HandInv(s.queue.tickets, s.hands[k]);
      assert s.strays != [] ==> s.strays == [s.strays[0]] + s.strays[1..];
    case Pick(k) => assert HandInv(s.queue.tickets, s.hands[k]);
      HandStepKeepsSysInv(s, t, k);
    case Fail(k) => assert HandInv(s.queue.tickets, s.hands[k]);
      HandStepKeepsSysInv(s, t, k);
    case Post(_, _, _, _) => PostKeepsSysInv(max, s, e);
    case Wake(k) => assert HandInv(s.queue.tickets, s.hands[k]);
      HandStepKeepsSysInv(s, t, k);
  }

  lemma {:induction false} SysInvHolds(max: int, handCount: nat, run: seq<Event>)
    requires Run(max, handCount, run).Some?
    ensures SysInv(Run(max, handCount, run).value)
  {
    if run != [] {
      var init := run[..|run| - 1];
      SysInvHolds(max, handCount, init);
      HappenKeepsSysInv(max, Run(max, handCount, init).value, run[|run| - 1]);
    }
  }

  /* ---------- the hand-off ---------- */

  /**
   * In every reachable state, whatever happens next, a hand that has a stray keeps exactly that
   * stray, unless it is the hand itself that clears it.
   */
  lemma {:induction false} StrayIsNeverReplaced(max: int, handCount: nat, run: seq<Event>, e: Event, k: nat)
    requires Run(max, handCount, run).Some? && CanHappen(Run(max, handCount, run).value, e)
    requires k < |Run(max, handCount, run).value.hands|
    requires Run(max, handCount, run).value.hands[k].stray.Some?
    ensures var s := Run(max, handCount, run).value;
            var t := Happen(max, s, e);
            && |t.hands| == |s.hands|
            && (t.hands[k].stray == s.hands[k].stray ||
                (e in {Fail(k), Wake(k)} && t.hands[k].stray.None? && t.hands[k].pc.Resting?))
  {
    SysInvHolds(max, handCount, run);
  }

  /** Since the last refresh, what was handed out followed by what is left is the refreshed list. */
  lemma {:induction false} HandedThenLeft(max: int, handCount: nat, run: seq<Event>)
    requires Run(max, handCount, run).Some?
    ensures var s := Run(max, handCount, run).value; s.refreshed == s.handed + s.strays
  {
    SysInvHolds(max, handCount, run);
  }

  /** The list of the run's last refresh that brought any files. */
  function LastRefresh(run: seq<Event>): seq<Stray> {
    if run == [] then []
    else
      var last := run[|run| - 1];
      if last.Refresh? && last.files != [] then last.files else LastRefresh(run[..|run| - 1])
  }

  /** How often a free hand was served since. */
  function GivesSince(run: seq<Event>): nat {
    if run == [] then 0
    else
      var last := run[|run| - 1];
      if last.Refresh? && last.files != [] then 0
      else GivesSince(run[..|run| - 1]) + if last.Give? then 1 else 0
  }

  /**
   * After every run the list that counts is that of the last non-empty refresh; the free hands served
   * since have got it from the front, one file each, and what is left is the rest.
   */
  lemma {:induction false} ListIsRefreshed(max: int, handCount: nat, run: seq<Event>)
    requires Run(max, handCount, run).Some?
    ensures ListIs(Run(max, handCount, run).value, LastRefresh(run), GivesSince(run))
  {
    if run != [] {
      hide Happen, CanHappen, ListIs;
      var init := run[..|run| - 1];
      ListIsRefreshed(max, handCount, init);
      ListAfter(max, Run(max, handCount, init).value, run[|run| - 1], LastRefresh(init), GivesSince(init));
    }
  }

  /** Of these files the first ones have been given, one each time, and the rest is left. */
  predicate ListIs(s: Sys, files: seq<Stray>, gives: nat) {
    var given := Min(gives, |files|);
    s.refreshed == files && s.handed == files[..given] && s.strays == files[given..]
  }

  lemma ListAfter(max: int, s: Sys, e: Event, files: seq<Stray>, gives: nat)
    requires CanHappen(s, e) && ListIs(s, files, gives)
    ensures ListIs(Happen(max, s, e),
                   if e.Refresh? && e.files != [] then e.files else files,
                   if e.Refresh? && e.files != [] then 0 else gives + if e.Give? then 1 else 0)
  {
    hide Next, Enabled, ProofOf;
  }

  lemma RunAppend(max: int, handCount: nat, run: seq<Event>, e: Event)
    requires Run(max, handCount, run).Some?
    ensures var s := Run(max, handCount, run).value;
            Run(max, handCount, run + [e]) == if CanHappen(s, e) then Some(Happen(max, s, e)) else None
  {
    assert (run + [e])[..|run|] == run;
  }

  /**
   * A refresh of a sleeping manager that brings files replaces the list, and touches neither the hands
   * nor the queue.
   */
  lemma {:induction false} RefreshReplaces(max: int, handCount: nat, run: seq<Event>, files: seq<Stray>)
    requires Run(max, handCount, run).Some? && Run(max, handCount, run).value.cursor == Asleep
    ensures Run(max, handCount, run + [Refresh(files)]).Some?
    ensures var s, t := Run(max, handCount, run).value, Run(max, handCount, run + [Refresh(files)]).value;
            && (files != [] ==> t.strays == t.refreshed == files && t.handed == [])
            && (files == [] ==> t.strays == s.strays)
            && t.hands == s.hands && t.queue == s.queue
  {
    RunAppend(max, handCount, run, Refresh(files));
  }

  /**
   * Serving a hand gives it the first file of the list, or none if the list is empty; hands that have
   * one are passed over.
   */
  lemma {:induction false} GiveTakesFirst(max: int, handCount: nat, run: seq<Event>)
    requires Run(max, handCount, run + [Give]).Some? && Run(max, handCount, run).Some?
    ensures var s, t := Run(max, handCount, run).value, Run(max, handCount, run + [Give]).value;
            && s.cursor.Free? && s.cursor.k < |s.hands| == |t.hands| && s.hands[s.cursor.k].stray == None
            && t.hands[s.cursor.k].stray == (if s.strays == [] then None else Some(s.strays[0]))
            && (forall k | 0 <= k < |s.hands| && k != s.cursor.k :: t.hands[k] == s.hands[k])
  {
    RunAppend(max, handCount, run, Give);
    SysInvHolds(max, handCount, run);
  }

  /**
   * A hand queues a proof for the merkle, the owner and the start of its stray, and waits for exactly
   * that message.
   */
  lemma {:induction false} PostCarriesStray(max: int, handCount: nat, run: seq<Event>, e: Event)
    requires e.Post? && Run(max, handCount, run).Some? && Run(max, handCount, run + [e]).Some?
    ensures var s, t := Run(max, handCount, run).value, Run(max, handCount, run + [e]).value;
            var id := |s.queue.tickets|;
            && e.k < |s.hands| == |t.hands| && s.hands[e.k].stray.Some? && |t.queue.tickets| == id + 1
            && var stray, msg := s.hands[e.k].stray.value, t.queue.tickets[id].msg;
               && msg.PostProof? && msg.merkle == stray.merkle && msg.owner == stray.owner && msg.start == stray.start
               && msg.creator == e.creator && msg.item == e.item && msg.hashList == e.hashList
               && t.hands[e.k].pc == Waiting(id) && t.hands[e.k].stray == s.hands[e.k].stray
  {
    RunAppend(max, handCount, run, e);
  }

  /** A hand starts on its stray, and is free again once it has failed or its message is done. */
  lemma {:induction false} HandGoesOn(max: int, handCount: nat, run: seq<Event>, k: nat)
    requires Run(max, handCount, run).Some? && k < |Run(max, handCount, run).value.hands|
    ensures var h := Run(max, handCount, run).value.hands[k];
            && (Run(max, handCount, run + [Pick(k)]).Some? <==> h.pc == Resting && h.stray.Some?)
            && (Run(max, handCount, run + [Fail(k)]).Some? <==> h.pc == Working)
            && (Run(max, handCount, run + [Wake(k)]).Some? <==>
                  h.pc.Waiting? && h.pc.ticket < |Run(max, handCount, run).value.queue.tickets| &&
                  Run(max, handCount, run).value.queue.tickets[h.pc.ticket].waits == 0)
    ensures forall e | e in {Pick(k), Fail(k), Wake(k)} && Run(max, handCount, run + [e]).Some? ::
              var t := Run(max, handCount, run + [e]).value;
              && k < |t.hands| && t.hands[k].pc == (if e.Pick? then Working else Resting)
              && (!e.Pick? ==> t.hands[k].stray == None)
  {
    RunAppend(max, handCount, run, Pick(k));
    RunAppend(max, handCount, run, Fail(k));
    RunAppend(max, handCount, run, Wake(k));
  }

  /**
   * A sleeping manager starts a round; it looks at one hand after the other, serves the free ones, and
   * sleeps again.
   */
  lemma {:induction false} ManagerGoesOn(max: int, handCount: nat, run: seq<Event>)
    requires Run(max, handCount, run).Some?
    ensures var s := Run(max, handCount, run).value;
            && (Run(max, handCount, run + [Dispatch]).Some? <==> s.cursor == Asleep)
            && (Run(max, handCount, run + [Look]).Some? <==> s.cursor.At?)
            && (Run(max, handCount, run + [Give]).Some? <==> s.cursor.Free?)
            && (forall files :: Run(max, handCount, run + [Refresh(files)]).Some? <==> s.cursor == Asleep)
            && (s.cursor == Asleep ==> Run(max, handCount, run + [Dispatch]).value == s.(cursor := At(0)))
            && (s.cursor.At? ==>
                  Run(max, handCount, run + [Look]).value ==
                  if s.cursor.k == |s.hands| then s.(cursor := Asleep)
                  else if s.hands[s.cursor.k].stray == None then s.(cursor := Free(s.cursor.k))
                  else s.(cursor := At(s.cursor.k + 1)))
            && (s.cursor.Free? ==> Run(max, handCount, run + [Give]).value.cursor == At(s.cursor.k + 1))
  {
    SysInvHolds(max, handCount, run);
    RunAppend(max, handCount, run, Dispatch);
    RunAppend(max, handCount, run, Look);
    RunAppend(max, handCount, run, Give);
    forall files
      ensures Run(max, handCount, run + [Refresh(files)]).Some? <==> Run(max, handCount, run).value.cursor == Asleep
    {
      RunAppend(max, handCount, run, Refresh(files));
    }
  }

  /** Of all the messages a hand ever queued, only the one it waits for can be pending or in flight. */
  lemma {:induction false} OneMessagePerHand(max: int, handCount: nat, run: seq<Event>, k: nat, i: nat)
    requires Run(max, handCount, run).Some?
    requires k < |Run(max, handCount, run).value.hands|
    requires i < |Run(max, handCount, run).value.hands[k].posted|
    ensures var s := Run(max, handCount, run).value;
            var id := s.hands[k].posted[i];
            id in s.queue.pending || (s.queue.phase.Sending? && id in InFlightIds(s.queue)) ==>
              s.hands[k].pc == Waiting(id)
  {
    SysInvHolds(max, handCount, run);
    var s := Run(max, handCount, run).value;
    assert HandInv(s.queue.tickets, s.hands[k]);
    if s.queue.phase.Sending? {
      assert Settled(s.queue.tickets, s.queue.departures[|s.queue.departures| - 1]);
    }
  }

  /* ---------- a hand after a full mempool ---------- */

  /** The hand waits for a message that a reset stranded. */
  ghost predicate Blocked(s: Sys, k: nat) {
    k < |s.hands| && s.hands[k].pc.Waiting? && s.hands[k].stray.Some? && Lost(s.queue, s.hands[k].pc.ticket)
  }

  lemma {:induction false} BlockedStep(max: int, s: Sys, e: Event, k: nat)
    requires SysInv(s) && CanHappen(s, e) && Blocked(s, k)
    ensures Blocked(Happen(max, s, e), k) && Happen(max, s, e).hands[k] == s.hands[k]
  {
    hide Next, Inv, Lost, Resets, InFlightIds;
    LostWaits(s.queue, s.hands[k].pc.ticket);
    if e.QueueStep? {
      LostByStep(max, s.queue, e.step, s.hands[k].pc.ticket);
    } else if e.Post? {
      LostByStep(max, s.queue, Add(ProofOf(s, e)), s.hands[k].pc.ticket);
    }
  }

  lemma {:induction false} BlockedForever(max: int, handCount: nat, before: seq<Event>, more: seq<Event>, k: nat)
    requires Run(max, handCount, before).Some? && Run(max, handCount, before + more).Some?
    requires Blocked(Run(max, handCount, before).value, k)
    ensures var s, t := Run(max, handCount, before).value, Run(max, handCount, before + more).value;
            Blocked(t, k) && t.hands[k] == s.hands[k] && !CanHappen(t, Wake(k))
  {
    hide SysInv, Happen, Blocked, CanHappen;
    SysInvHolds(max, handCount, before + more);
    if more == [] {
      assert before + more == before;
    } else {
      var init := more[..|more| - 1];
      assert (before + more)[..|before + more| - 1] == before + init;
      BlockedForever(max, handCount, before, init, k);
      SysInvHolds(max, handCount, before + init);
      BlockedStep(max, Run(max, handCount, before + init).value, more[|more| - 1], k);
    }
    BlockedCannotWake(Run(max, handCount, before + more).value, k);
  }

  lemma BlockedCannotWake(s: Sys, k: nat)
    requires SysInv(s) && Blocked(s, k)
    ensures !CanHappen(s, Wake(k))
  {
    LostWaits(s.queue, s.hands[k].pc.ticket);
  }

  /**
   * When a broadcast meets a full mempool, a hand that waits for a message without its Done keeps
   * its stray and waits in every continuation; a hand whose message is done can go on at once.
   */
  lemma {:induction false} ResetBlocksHand(max: int, handCount: nat, before: seq<Event>, step: Step, k: nat)
    requires Run(max, handCount, before + [QueueStep(step)]).Some? && Run(max, handCount, before).Some?
    requires k < |Run(max, handCount, before).value.hands| && Run(max, handCount, before).value.hands[k].pc.Waiting?
    requires Resets(Run(max, handCount, before).value.queue, step)
    ensures var s := Run(max, handCount, before).value;
            var reset, id := before + [QueueStep(step)], s.hands[k].pc.ticket;
            && id < |s.queue.tickets|
            && (s.queue.tickets[id].waits == 0 <==> CanHappen(Run(max, handCount, reset).value, Wake(k)))
            && (s.queue.tickets[id].waits != 0 ==>
                  forall more | Run(max, handCount, reset + more).Some? ::
                    var t := Run(max, handCount, reset + more).value;
                    k < |t.hands| && t.hands[k] == s.hands[k] && !CanHappen(t, Wake(k)))
  {
    var s, reset := Run(max, handCount, before).value, before + [QueueStep(step)];
    assert reset[..|reset| - 1] == before;
    SysInvHolds(max, handCount, before);
    SysInvHolds(max, handCount, reset);
    var t := Run(max, handCount, reset).value;
    assert t == Happen(max, s, QueueStep(step));
    CaughtHand(max, s, step, k);
    if s.queue.tickets[s.hands[k].pc.ticket].waits != 0 {
      forall more | Run(max, handCount, reset + more).Some?
        ensures var u := Run(max, handCount, reset + more).value;
                k < |u.hands| && u.hands[k] == s.hands[k] && !CanHappen(u, Wake(k))
      {
        BlockedForever(max, handCount, reset, more, k);
      }
      BlockedCannotWake(t, k);
    }
  }

  lemma {:induction false} CaughtHand(max: int, s: Sys, step: Step, k: nat)
    requires SysInv(s) && Enabled(s.queue, step) && Resets(s.queue, step)
    requires k < |s.hands| && s.hands[k].pc.Waiting?
    ensures s.hands[k].pc.ticket < |s.queue.tickets|
    ensures var t := Happen(max, s, QueueStep(step));
            && t.hands[k] == s.hands[k]
            && (s.queue.tickets[s.hands[k].pc.ticket].waits == 0 ==> CanHappen(t, Wake(k)))
            && (s.queue.tickets[s.hands[k].pc.ticket].waits != 0 ==> Blocked(t, k))
  {
    var id := s.hands[k].pc.ticket;
    assert HandInv(s.queue.tickets, s.hands[k]);
    if s.queue.tickets[id].waits != 0 {
      assert InvTickets(s.queue);
      hide Next, Inv, Lost;
      FateOf(s.queue, id);
      LostByStep(max, s.queue, step, id);
    }
  }
}
