/** The retry loop of BroadcastPending in queue/queue.go. */
module Broadcast {
  import opened Wrappers
  import opened Text
  import opened Sequence

  const IN_CACHE := "tx already exists in cache"
  const MEMPOOL_FULL := "mempool is full"
  const MAX_ATTEMPTS := 10

  datatype Response = Response(code: nat, rawLog: string)

  /** BroadcastTxSync returns an error, a response, or neither. */
  datatype Reply = Failure(text: string, left: Option<Response>) | Answer(res: Response) | NilAnswer

  /** The transaction being sent: attempts made, its explicit sequence, the last response. */
  datatype Tx = Tx(attempts: nat, sequence: Option<nat>, res: Option<Response>, complete: bool)

  const FRESH := Tx(0, None, None, false)

  predicate Running(tx: Tx) {
    !tx.complete && tx.attempts < MAX_ATTEMPTS
  }

  /** The sequence to use after a mismatch: the reported one, or else the next 64-bit one if one was set. */
  function Resequenced(text: string, sequence: Option<nat>): Option<nat> {
    if !Contains(text, MISMATCH) then None
    else if ExtractExpectedSequence(text).1 then Some(ExtractExpectedSequence(text).0)
    else if sequence.Some? then Some((sequence.value + 1) % UINT64_LIMIT)
    else None
  }

  /** One round of the loop; None is the full mempool, which resets the queue. */
  function Attempt(tx: Tx, reply: Reply): Option<Tx> {
    var next := tx.(attempts := tx.attempts + 1);
    match reply
    case Failure(text, res) =>
      var failed := next.(res := res);
      if Contains(text, IN_CACHE) then Some(failed)
      else if Contains(text, MEMPOOL_FULL) then None
      else
        var sequence := Resequenced(text, tx.sequence);
        Some(if sequence.Some? then failed.(sequence := sequence) else failed)
    case Answer(res) =>
      var sequence := if res.code != 0 then Resequenced(res.rawLog, tx.sequence) else None;
      Some(if sequence.Some? then next.(res := Some(res), sequence := sequence)
           else next.(res := Some(res), complete := true))
    case NilAnswer =>
      Some(next.(res := None))
  }

  /** The chain's reply to each attempt, by attempt number and the sequence that the transaction carries. */
  type Chain = (nat, Option<nat>) -> Reply

  /** All rounds from tx on; None if the mempool was full. */
  function Drive(chain: Chain, tx: Tx): Option<Tx>
    decreases MAX_ATTEMPTS - tx.attempts
  {
    if !Running(tx) then Some(tx)
    else
      match Attempt(tx, chain(tx.attempts, tx.sequence))
      case None => None
      case Some(next) => Drive(chain, next)
  }

  /* ---------- what each reply leads to ---------- */

  predicate IsMismatch(text: string) {
    Contains(text, "account sequence mismatch")
  }

  /**
   * The reply calls for another attempt, with this sequence: the reported one, else the next 64-bit
   * one after a set one.
   */
  predicate Retries(reply: Reply, sequence: Option<nat>, next: Option<nat>) {
    match reply
    case Failure(text, _) =>
      if Contains(text, "tx already exists in cache") then next == sequence
      else
        && !Contains(text, "mempool is full")
        && (if IsMismatch(text) && ExtractExpectedSequence(text).1 then next == Some(ExtractExpectedSequence(text).0)
            else if IsMismatch(text) && sequence.Some? then next == Some((sequence.value + 1) % 18446744073709551616)
            else next == sequence)
    case Answer(res) =>
      && res.code != 0 && IsMismatch(res.rawLog)
      && (if ExtractExpectedSequence(res.rawLog).1 then next == Some(ExtractExpectedSequence(res.rawLog).0)
          else sequence.Some? && next == Some((sequence.value + 1) % 18446744073709551616))
    case NilAnswer => next == sequence
  }

  /** The last reply: an answer, unless it is a mismatch that names a number or meets a set sequence. */
  predicate Ends(reply: Reply, sequence: Option<nat>) {
    && reply.Answer?
    && (reply.res.code == 0 || !IsMismatch(reply.res.rawLog) ||
        (!ExtractExpectedSequence(reply.res.rawLog).1 && sequence.None?))
  }

  /** The reply that resets the queue. */
  predicate Fills(reply: Reply) {
    reply.Failure? && Contains(reply.text, "mempool is full") && !Contains(reply.text, "tx already exists in cache")
  }

  function ResponseOf(reply: Reply): Option<Response> {
    match reply
    case Failure(_, left) => left
    case Answer(res) => Some(res)
    case NilAnswer => None
  }

  /**
   * Attempt k was made with the k-th of these sequences, the first with none set, and all but the last
   * were to be retried.
   */
  ghost predicate Attempted(chain: Chain, sequences: seq<Option<nat>>) {
    && sequences != [] && sequences[0] == None
    && forall k: nat | k + 1 < |sequences| :: Retries(chain(k, sequences[k]), sequences[k], sequences[k + 1])
  }

  /** How the loop ends after n attempts that were to be retried. */
  ghost predicate EndsAs(chain: Chain, sequences: seq<Option<nat>>, end: Option<Tx>) {
    var n := |sequences| - 1;
    && Attempted(chain, sequences) && n <= 10
    && if n == 10 then end == Some(Tx(10, sequences[n], ResponseOf(chain(9, sequences[9])), false))
       else if Fills(chain(n, sequences[n])) then end == None
       else
         && Ends(chain(n, sequences[n]), sequences[n])
         && end == Some(Tx(n + 1, sequences[n], ResponseOf(chain(n, sequences[n])), true))
  }

  ghost predicate LoopEndsAs(chain: Chain, end: Option<Tx>) {
    exists sequences :: EndsAs(chain, sequences, end)
  }

  /** One attempt follows the cases, each of which excludes the others. */
  lemma {:induction false} AttemptFollows(tx: Tx, reply: Reply)
    requires !tx.complete
    ensures Attempt(tx, reply) == None <==> Fills(reply)
    ensures forall next :: Retries(reply, tx.sequence, next) ==>
              Attempt(tx, reply) == Some(Tx(tx.attempts + 1, next, ResponseOf(reply), false))
    ensures Ends(reply, tx.sequence) <==>
              Attempt(tx, reply) == Some(Tx(tx.attempts + 1, tx.sequence, ResponseOf(reply), true))
    ensures Fills(reply) || Ends(reply, tx.sequence) ||
            (Attempt(tx, reply).Some? && Retries(reply, tx.sequence, Attempt(tx, reply).value.sequence))
  {
    hide Contains, ExtractExpectedSequence;
  }

  /**
   * Against every chain, whatever it replies: the loop ends, without an error, with the first reply
   * that Ends, or resets the queue on the first that Fills, or gives up after ten others.
   */
  lemma {:induction false} LoopEnds(chain: Chain, sequences: seq<Option<nat>>, tx: Tx) returns (all: seq<Option<nat>>)
    requires Attempted(chain, sequences) && |sequences| - 1 == tx.attempts <= 10
    requires tx.sequence == sequences[tx.attempts] && !tx.complete
    requires tx.attempts > 0 ==> tx.res == ResponseOf(chain(tx.attempts - 1, sequences[tx.attempts - 1]))
    ensures sequences <= all && EndsAs(chain, all, Drive(chain, tx))
    decreases 10 - tx.attempts
  {
    hide Retries, Ends, Fills, Attempt;
    all := sequences;
    if tx.attempts < 10 {
      var reply := chain(tx.attempts, tx.sequence);
      AttemptFollows(tx, reply);
      if !Fills(reply) && !Ends(reply, tx.sequence) {
        var next := Attempt(tx, reply).value;
        all := LoopEnds(chain, sequences + [next.sequence], next);
      }
    }
  }

  /** There is only one such run of attempts. */
  lemma {:induction false} LoopEndsOnce(chain: Chain, a: seq<Option<nat>>, b: seq<Option<nat>>, end: Option<Tx>,
                                        other: Option<Tx>)
    requires EndsAs(chain, a, end) && EndsAs(chain, b, other)
    ensures a == b && end == other
  {
    var k := 0;
    while k + 1 < |a| && k + 1 < |b|
      invariant 0 <= k < |a| && k < |b| && a[..k + 1] == b[..k + 1]
    {
      assert a[k] == a[..k + 1][k] == b[k];
      RetriesOneWay(chain(k, a[k]), a[k], a[k + 1], b[k + 1]);
      assert a[..k + 2] == a[..k + 1] + [a[k + 1]] && b[..k + 2] == b[..k + 1] + [b[k + 1]];
      k := k + 1;
    }
    assert a[k] == a[..k + 1][k] == b[k];
    if k + 1 == |a| {
      EndIsShared(chain, a, b, end, other);
    } else {
      EndIsShared(chain, b, a, other, end);
    }
    hide Attempted, Fills, Ends;
  }

  /** After the last attempt of the one the other makes none either. */
  lemma EndIsShared(chain: Chain, a: seq<Option<nat>>, b: seq<Option<nat>>, end: Option<Tx>, other: Option<Tx>)
    requires EndsAs(chain, a, end) && EndsAs(chain, b, other)
    requires |a| <= |b| && a[|a| - 1] == b[|a| - 1]
    ensures |b| == |a|
  {
    hide Retries, Fills, Ends;
    if |a| < |b| {
      EarlierRetries(chain, b, |a| - 1);
    }
  }

  lemma EarlierRetries(chain: Chain, sequences: seq<Option<nat>>, k: nat)
    requires Attempted(chain, sequences) && k + 1 < |sequences|
    ensures !Fills(chain(k, sequences[k])) && !Ends(chain(k, sequences[k]), sequences[k])
  {
    RetriesIsNotLast(chain(k, sequences[k]), sequences[k], sequences[k + 1]);
  }

  lemma RetriesOneWay(reply: Reply, sequence: Option<nat>, a: Option<nat>, b: Option<nat>)
    requires Retries(reply, sequence, a) && Retries(reply, sequence, b)
    ensures a == b
  {
    hide Contains, ExtractExpectedSequence;
  }

  lemma RetriesIsNotLast(reply: Reply, sequence: Option<nat>, next: Option<nat>)
    requires Retries(reply, sequence, next)
    ensures !Fills(reply) && !Ends(reply, sequence)
  {
    hide Contains, ExtractExpectedSequence;
  }

  /** So an answer to the first attempt that is no mismatch ends the loop there, whatever its code. */
  lemma {:induction false} FirstAnswerEnds(chain: Chain, res: Response)
    requires chain(0, None) == Answer(res) && !Contains(res.rawLog, "account sequence mismatch")
    ensures Drive(chain, FRESH) == Some(Tx(1, None, Some(res), true))
  {
    AttemptFollows(FRESH, chain(0, None));
  }

  /** The loop: `reset` on a full mempool, else whether it completed, and the error it leaves. */
  method BroadcastWithRetries(chain: Chain) returns (reset: bool, tx: Tx, err: bool)
    ensures reset <==> Drive(chain, FRESH).None?
    ensures !reset ==> Drive(chain, FRESH) == Some(tx)
    ensures LoopEndsAs(chain, if reset then None else Some(tx))
    ensures !reset ==> tx.attempts <= MAX_ATTEMPTS && (err <==> !tx.complete)
    ensures !reset && err ==> tx.attempts == MAX_ATTEMPTS
    ensures !reset && !err ==> tx.res.Some?
  {
    ghost var sequences := LoopEnds(chain, [None], FRESH);
    assert LoopEndsAs(chain, Drive(chain, FRESH));
    hide LoopEndsAs;
    var complete, i := false, 0;
    var sequence: Option<nat> := None;
    var res: Option<Response> := None;
    err := false;
    while !complete && i < MAX_ATTEMPTS
      invariant 0 <= i <= MAX_ATTEMPTS
      invariant Drive(chain, Tx(i, sequence, res, complete)) == Drive(chain, FRESH)
      invariant complete ==> !err && res.Some?
      decreases MAX_ATTEMPTS - i
    {
      var reply := chain(i, sequence);
      ghost var before := Tx(i, sequence, res, complete);
      i := i + 1;
      match reply
      case Failure(text, r) =>
        err, res := true, r;
        if Contains(text, IN_CACHE) {
        } else if Contains(text, MEMPOOL_FULL) {
          return true, FRESH, false;
        } else if Contains(text, MISMATCH) {
          var (expected, found) := ExtractExpectedSequence(text);
          if found {
            sequence := Some(expected);
          } else if sequence.Some? {
            sequence := Some((sequence.value + 1) % UINT64_LIMIT);
          }
        }
      case Answer(r) =>
        err, res := false, Some(r);
        var again := false;
        if r.code != 0 && Contains(r.rawLog, MISMATCH) {
          var (expected, found) := ExtractExpectedSequence(r.rawLog);
          if found {
            sequence, again := Some(expected), true;
          } else if sequence.Some? {
            sequence, again := Some((sequence.value + 1) % UINT64_LIMIT), true;
          }
        }
        complete := !again;
      case NilAnswer =>
        err, res := false, None;
    }
    if !complete {
      err := true;
    }
    return false, Tx(i, sequence, res, complete), err;
  }

  /* ---------- against an honest chain ---------- */

  /** The reply rejects the transaction and reports v as the expected sequence. */
  predicate Reports(reply: Reply, v: nat) {
    match reply
    case Failure(text, _) =>
      !Contains(text, IN_CACHE) && !Contains(text, MEMPOOL_FULL) &&
      Contains(text, MISMATCH) && ExtractExpectedSequence(text) == (v, true)
    case Answer(res) =>
      res.code != 0 && Contains(res.rawLog, MISMATCH) && ExtractExpectedSequence(res.rawLog) == (v, true)
    case NilAnswer => false
  }

  predicate Accepts(reply: Reply) {
    reply.Answer? && reply.res.code == 0
  }

  /**
   * Expecting v, the chain accepts v, reports v against another sequence, and does either when the
   * wallet chooses.
   */
  predicate HonestReply(reply: Reply, v: nat, sequence: Option<nat>) {
    if sequence == Some(v) then Accepts(reply)
    else if sequence.Some? then Reports(reply, v)
    else Accepts(reply) || Reports(reply, v)
  }

  /** At attempt k the chain expects sequence e(k). */
  ghost predicate Honest(chain: Chain, e: nat -> nat) {
    forall k: nat, sequence: Option<nat> :: HonestReply(chain(k, sequence), e(k), sequence)
  }

  /** The expected sequence moves, or stands still, in the gap after attempt k. */
  predicate StandsStill(e: nat -> nat, k: nat) {
    e(k) == e(k + 1)
  }

  ghost predicate Completes(chain: Chain, rounds: nat) {
    var end := Drive(chain, FRESH);
    end.Some? && end.value.complete && end.value.attempts <= rounds
  }

  lemma AttemptOutcome(tx: Tx, reply: Reply, v: nat)
    ensures Accepts(reply) ==>
              Attempt(tx, reply) == Some(tx.(attempts := tx.attempts + 1, res := Some(reply.res), complete := true))
    ensures Reports(reply, v) ==>
              && Attempt(tx, reply).Some?
              && Attempt(tx, reply).value.sequence == Some(v)
              && Attempt(tx, reply).value.complete == tx.complete
              && Attempt(tx, reply).value.attempts == tx.attempts + 1
  {
  }

  /** One round against an honest chain completes, or leaves the sequence that the chain just reported. */
  lemma {:induction false} HonestRound(chain: Chain, e: nat -> nat, tx: Tx) returns (next: Tx)
    requires Honest(chain, e) && Running(tx)
    ensures Drive(chain, tx) == Drive(chain, next) && next.attempts == tx.attempts + 1
    ensures next.complete || next.sequence == Some(e(tx.attempts))
    ensures tx.sequence == Some(e(tx.attempts)) ==> next.complete
  {
    var reply := chain(tx.attempts, tx.sequence);
    AttemptOutcome(tx, reply, e(tx.attempts));
    assert HonestReply(reply, e(tx.attempts), tx.sequence);
    next := Attempt(tx, reply).value;
  }

  lemma DriveEnds(chain: Chain, tx: Tx)
    requires !Running(tx)
    ensures Drive(chain, tx) == Some(tx)
  {
  }

  /** Once the expected sequence stands still over one gap, the next attempt succeeds. */
  lemma {:induction false} StandstillCompletes(chain: Chain, e: nat -> nat, tx: Tx, k: nat)
    requires Honest(chain, e) && StandsStill(e, k) && k + 1 < MAX_ATTEMPTS
    requires Running(tx) && tx.attempts <= k + 1
    requires tx.attempts > 0 ==> tx.sequence == Some(e(tx.attempts - 1))
    ensures Drive(chain, tx).Some? && Drive(chain, tx).value.complete
    ensures Drive(chain, tx).value.attempts <= k + 2
    decreases k + 1 - tx.attempts
  {
    hide Honest, Drive;
    var next := HonestRound(chain, e, tx);
    if tx.attempts == k + 1 {
      assert tx.sequence == Some(e(tx.attempts));
    }
    if next.complete {
      DriveEnds(chain, next);
    } else {
      StandstillCompletes(chain, e, next, k);
    }
  }

  /** A chain that expects e(k) at attempt k and answers every other transaction with its mismatch message. */
  function ReportingChain(e: nat -> nat): Chain {
    (k: nat, sequence: Option<nat>) =>
      if sequence == Some(e(k)) then Answer(Response(0, ""))
      else Answer(Response(32, MismatchMessage(e(k), 0)))
  }

  lemma ReportingChainIsHonest(e: nat -> nat)
    requires forall k :: e(k) < UINT64_LIMIT
    ensures Honest(ReportingChain(e), e)
  {
    forall k: nat, sequence: Option<nat>
      ensures HonestReply(ReportingChain(e)(k, sequence), e(k), sequence)
    {
      ExtractFromMismatch(e(k), 0);
    }
  }

  /** One round against it with any other sequence goes on. */
  lemma {:induction false} ReportingRound(e: nat -> nat, tx: Tx) returns (next: Tx)
    requires (forall k :: e(k) < UINT64_LIMIT) && Running(tx) && tx.sequence != Some(e(tx.attempts))
    ensures Drive(ReportingChain(e), tx) == Drive(ReportingChain(e), next)
    ensures next.attempts == tx.attempts + 1 && !next.complete && next.sequence == Some(e(tx.attempts))
  {
    var reply := ReportingChain(e)(tx.attempts, tx.sequence);
    ExtractFromMismatch(e(tx.attempts), 0);
    AttemptOutcome(tx, reply, e(tx.attempts));
    next := Attempt(tx, reply).value;
  }

  lemma {:induction false} MovingNeverCompletes(e: nat -> nat, tx: Tx)
    requires forall k :: e(k) < UINT64_LIMIT
    requires forall k: nat | k + 1 < MAX_ATTEMPTS :: !StandsStill(e, k)
    requires !tx.complete && tx.attempts <= MAX_ATTEMPTS
    requires tx.attempts > 0 ==> tx.sequence == Some(e(tx.attempts - 1))
    requires tx.attempts == 0 ==> tx.sequence == None
    ensures Drive(ReportingChain(e), tx).Some? && !Drive(ReportingChain(e), tx).value.complete
    decreases MAX_ATTEMPTS - tx.attempts
  {
    if Running(tx) {
      var i := tx.attempts;
      assert i > 0 ==> !StandsStill(e, i - 1);
      var next := ReportingRound(e, tx);
      MovingNeverCompletes(e, next);
    }
  }

  /**
   * The loop completes against every honest chain with these expected sequences exactly when the
   * sequence stands still in one of the nine gaps between attempts.
   */
  lemma {:induction false} CompletesIffStandstill(e: nat -> nat)
    requires forall k :: e(k) < UINT64_LIMIT
    ensures (forall chain: Chain | Honest(chain, e) :: Completes(chain, MAX_ATTEMPTS)) <==>
            (exists k: nat | k + 1 < MAX_ATTEMPTS :: StandsStill(e, k))
  {
    if k: nat :| k + 1 < MAX_ATTEMPTS && StandsStill(e, k) {
      forall chain: Chain | Honest(chain, e)
        ensures Completes(chain, MAX_ATTEMPTS)
      {
        StandstillCompletes(chain, e, FRESH, k);
      }
    } else {
      ReportingChainIsHonest(e);
      MovingNeverCompletes(e, FRESH);
      assert !Completes(ReportingChain(e), MAX_ATTEMPTS);
    }
  }
}
