/** The nonce scheduler of processOperations against an adversarial node. The node is two finite scripts:
    the replies to nonce polls and the replies to send attempts, each consumed in order. */
module Scheduler {

  import opened Clarity

  datatype Operation = Operation(body: string, feeOverride: Option<nat>)

  /** A poll answers with the account nonce (and says whether a replace-by-fee attempt right after it
      throws), or the poll itself throws. */
  datatype Poll = Nonce(n: nat, rbfThrows: bool) | PollThrows

  datatype SendResult =
    Accepted | ContractAlreadyExists | ConflictingNonce(rbfThrows: bool) | TooMuchChaining | Rejected

  /** `quote` is the estimated or calculated fee, used when neither the operation nor the options fix one. */
  datatype Send = Send(quote: nat, result: SendResult)

  datatype Strategy = Increase | Replace
  datatype Config = Config(maxPerBlock: int, strategy: Strategy, replaceAllowed: bool, increment: nat, fee: Option<nat>)

  /** One send attempt: what was sent, and the window and the index of the latest poll at that moment. */
  datatype Attempt = Attempt(body: string, nonce: nat, fee: nat, poll: nat, window: int, result: SendResult)

  datatype Ending = Finished(nonce: nat) | Threw | StillWaiting

  // ---------- what the loop must do, read off the trace ----------

  /** The attempt settles its operation: sent, or dropped. */
  predicate Settles(r: SendResult) {
    r.Accepted? || r.ContractAlreadyExists? || r.Rejected?
  }

  /** The attempt moves the nonce on by one. */
  predicate Advances(cfg: Config, r: SendResult) {
    r.Accepted? || (r.ConflictingNonce? && cfg.strategy == Increase)
  }

  function SettledCount(trace: seq<Attempt>): nat {
    if trace == [] then 0
    else SettledCount(trace[..|trace| - 1]) + if Settles(trace[|trace| - 1].result) then 1 else 0
  }

  function AdvanceCount(cfg: Config, trace: seq<Attempt>): nat {
    if trace == [] then 0
    else AdvanceCount(cfg, trace[..|trace| - 1]) + if Advances(cfg, trace[|trace| - 1].result) then 1 else 0
  }

  function ChainingCount(trace: seq<Attempt>): nat {
    if trace == [] then 0
    else ChainingCount(trace[..|trace| - 1]) + if trace[|trace| - 1].result.TooMuchChaining? then 1 else 0
  }

  /** The fee override the next attempt finds on its operation. */
  function Override(cfg: Config, input: seq<Operation>, trace: seq<Attempt>): Option<nat> {
    var next := SettledCount(trace);
    if trace == [] || Settles(trace[|trace| - 1].result) then (if next < |input| then input[next].feeOverride else None)
    else
      var a := trace[|trace| - 1];
      if a.result.ConflictingNonce? && cfg.strategy == Replace then Some(a.fee + cfg.increment)
      else Override(cfg, input, trace[..|trace| - 1])
  }

  function Fee(cfg: Config, override: Option<nat>, quote: nat): nat {
    if override.Some? then override.value else if cfg.fee.Some? then cfg.fee.value else quote
  }

  /** The index of the latest poll before the next attempt; the first two polls precede the loop. */
  function LatestPoll(trace: seq<Attempt>): nat {
    if trace == [] then 1 else trace[|trace| - 1].poll
  }

  /** Polled from reply `from` on, up to the first one, `to`, that lets `nonce` into the window. */
  ghost predicate PolledUntilReady(polls: seq<Poll>, nonce: nat, window: int, from: nat, to: nat) {
    && from <= to < |polls|
    && (forall k :: from <= k <= to ==> polls[k].Nonce?)
    && (forall k :: from <= k < to ==> nonce > polls[k].n + window)
    && (forall k :: from < k < to ==> !polls[k].rbfThrows)
    && nonce <= polls[to].n + window
  }

  /** Blocked by every reply from `from` to the one before `to`, without anything throwing. */
  ghost predicate Blocked(polls: seq<Poll>, nonce: nat, window: int, from: nat, to: nat) {
    && from < to <= |polls|
    && (forall k :: from <= k < to ==> polls[k].Nonce? && nonce > polls[k].n + window)
    && (forall k :: from < k < to ==> !polls[k].rbfThrows)
  }

  /** Blocked up to reply `at`, which throws, or after which the replace-by-fee attempt throws. */
  ghost predicate ThrowsWaiting(polls: seq<Poll>, nonce: nat, window: int, from: nat, at: nat) {
    && at < |polls| && Blocked(polls, nonce, window, from, at)
    && (polls[at].PollThrows? || (nonce > polls[at].n + window && polls[at].rbfThrows))
  }

  ghost predicate WaitThrows(polls: seq<Poll>, nonce: nat, window: int, from: nat) {
    exists at :: ThrowsWaiting(polls, nonce, window, from, at)
  }

  ghost predicate CatchesUp(polls: seq<Poll>, nonce: nat, window: int, from: nat) {
    exists to :: PolledUntilReady(polls, nonce, window, from, to)
  }

  /** Handling this attempt's conflict throws. */
  predicate ThrowsHandling(cfg: Config, a: Attempt) {
    && a.result.ConflictingNonce?
    && (a.result.rbfThrows || (cfg.strategy == Replace && (!cfg.replaceAllowed || a.fee == 0)))
  }

  /** Attempt `a` is the one the scripts and the attempts before it call for: the first unsettled operation,
      at the nonce reached so far, with the fee due, after polling exactly until the nonce fits the window. */
  ghost predicate Due(cfg: Config, input: seq<Operation>, polls: seq<Poll>, sends: seq<Send>,
                      before: seq<Attempt>, a: Attempt) {
    && |before| < |sends| && a.result == sends[|before|].result
    && SettledCount(before) < |input| && a.body == input[SettledCount(before)].body
    && |polls| >= 2 && polls[0].Nonce? && a.nonce == polls[0].n + AdvanceCount(cfg, before)
    && a.window == cfg.maxPerBlock - ChainingCount(before)
    && a.fee == Fee(cfg, Override(cfg, input, before), sends[|before|].quote)
    && PolledUntilReady(polls, a.nonce, a.window, LatestPoll(before), a.poll)
    && (before != [] ==> !ThrowsHandling(cfg, before[|before| - 1]))
  }

  ghost predicate TraceDue(cfg: Config, input: seq<Operation>, polls: seq<Poll>, sends: seq<Send>,
                           trace: seq<Attempt>) {
    forall i :: 0 <= i < |trace| ==> Due(cfg, input, polls, sends, trace[..i], trace[i])
  }

  lemma {:induction false} TraceDueSnoc(cfg: Config, input: seq<Operation>, polls: seq<Poll>, sends: seq<Send>,
                                        trace: seq<Attempt>, a: Attempt)
    requires TraceDue(cfg, input, polls, sends, trace) && Due(cfg, input, polls, sends, trace, a)
    ensures TraceDue(cfg, input, polls, sends, trace + [a])
  {
    hide Due;
    var t := trace + [a];
    forall i | 0 <= i < |t| ensures Due(cfg, input, polls, sends, t[..i], t[i]) {
      assert t[..i] == trace[..i];
      if i == |trace| {
        assert trace[..i] == trace;
      }
    }
  }

  /** How the call ends after this trace. It is waiting for a reply the scripts do not hold, or something
      threw at this very point, or every operation is settled and the server has caught up. */
  ghost predicate EndsAs(cfg: Config, input: seq<Operation>, polls: seq<Poll>, sends: seq<Send>, confirmed: bool,
                         trace: seq<Attempt>, ending: Ending) {
    if |polls| == 0 then trace == [] && ending == StillWaiting
    else if polls[0].PollThrows? then trace == [] && ending == Threw
    else if input == [] then trace == [] && ending == Finished(polls[0].n)
    else if |polls| == 1 then trace == [] && ending == StillWaiting
    else if polls[1].PollThrows? then trace == [] && ending == Threw
    else
      var nonce, from := polls[0].n + AdvanceCount(cfg, trace), LatestPoll(trace);
      if trace != [] && ThrowsHandling(cfg, trace[|trace| - 1]) then ending == Threw
      else if SettledCount(trace) < |input| then
        var window := cfg.maxPerBlock - ChainingCount(trace);
        match ending
        case Finished(_) => false
        case Threw => WaitThrows(polls, nonce, window, from)
        case StillWaiting =>
          || Blocked(polls, nonce, window, from, |polls|)
          || (|trace| == |sends| && CatchesUp(polls, nonce, window, from))
      else
        match ending
        case Finished(n) => n == nonce && CatchesUp(polls, nonce, 0, from)
                            && (nonce > polls[0].n ==> confirmed)
        case Threw => || WaitThrows(polls, nonce, 0, from)
                      || (nonce > polls[0].n && !confirmed && CatchesUp(polls, nonce, 0, from))
        case StillWaiting => Blocked(polls, nonce, 0, from, |polls|)
  }

  // ---------- the loop ----------

  datatype WaitEnd = Ready | WaitThrew | Exhausted

  /** Both waiting loops: poll until the nonce is within `window` of the server's. */
  method AwaitServer(polls: seq<Poll>, nonce: nat, window: int, from: nat) returns (r: WaitEnd, latest: nat)
    requires from < |polls| && polls[from].Nonce?
    ensures r.Ready? ==> PolledUntilReady(polls, nonce, window, from, latest)
    ensures r.WaitThrew? ==> ThrowsWaiting(polls, nonce, window, from, latest)
    ensures r.Exhausted? ==> Blocked(polls, nonce, window, from, |polls|)
  {
    latest := from;
    var lastExecutedNonce := polls[from].n;
    while nonce > lastExecutedNonce + window
      invariant from <= latest < |polls| && polls[latest].Nonce? && lastExecutedNonce == polls[latest].n
      invariant forall k :: from <= k < latest ==> polls[k].Nonce? && nonce > polls[k].n + window
      invariant forall k :: from < k <= latest && nonce > polls[k].n + window ==> !polls[k].rbfThrows
      decreases |polls| - latest
    {
      if latest + 1 == |polls| {
        return Exhausted, latest;
      }
      latest := latest + 1;
      if polls[latest].PollThrows? {
        return WaitThrew, latest;
      }
      lastExecutedNonce := polls[latest].n;
      if nonce > lastExecutedNonce + window && polls[latest].rbfThrows {
        return WaitThrew, latest;
      }
    }
    return Ready, latest;
  }

  /** The queue holds the unsettled operations; only the first may carry a raised fee. */
  ghost predicate QueueDue(cfg: Config, input: seq<Operation>, trace: seq<Attempt>, queue: seq<Operation>) {
    var done := SettledCount(trace);
    && done + |queue| == |input|
    && (queue != [] ==>
         && queue[0] == input[done].(feeOverride := Override(cfg, input, trace))
         && queue[1..] == input[done + 1..])
  }

  lemma SettleKeepsQueue(cfg: Config, input: seq<Operation>, trace: seq<Attempt>, queue: seq<Operation>, a: Attempt)
    requires QueueDue(cfg, input, trace, queue) && queue != [] && Settles(a.result)
    ensures QueueDue(cfg, input, trace + [a], queue[1..])
  {
    var t, done := trace + [a], SettledCount(trace);
    assert t[..|t| - 1] == trace;
    if |queue| > 1 {
      assert queue[1..][0] == input[done + 1];
      assert queue[1..][1..] == input[done + 1..][1..] == input[done + 2..];
    }
  }

  lemma RetryKeepsQueue(cfg: Config, input: seq<Operation>, trace: seq<Attempt>, queue: seq<Operation>, a: Attempt,
                        op: Operation)
    requires QueueDue(cfg, input, trace, queue) && queue != [] && !Settles(a.result)
    requires op == if a.result.ConflictingNonce? && cfg.strategy == Replace
                   then queue[0].(feeOverride := Some(a.fee + cfg.increment)) else queue[0]
    ensures QueueDue(cfg, input, trace + [a], [op] + queue[1..])
  {
    var t := trace + [a];
    assert t[..|t| - 1] == trace;
  }

  lemma CountSnoc(cfg: Config, trace: seq<Attempt>, a: Attempt)
    ensures AdvanceCount(cfg, trace + [a]) == AdvanceCount(cfg, trace) + if Advances(cfg, a.result) then 1 else 0
    ensures ChainingCount(trace + [a]) == ChainingCount(trace) + if a.result.TooMuchChaining? then 1 else 0
    ensures SettledCount(trace + [a]) == SettledCount(trace) + if Settles(a.result) then 1 else 0
    ensures LatestPoll(trace + [a]) == a.poll
  {
    assert (trace + [a])[..|trace|] == trace;
  }

  /** The outcome of one attempt: throw, or a new queue, nonce and window. */
  method Handle(cfg: Config, a: Attempt, operation: Operation, rest: seq<Operation>)
    returns (throws: bool, queue: seq<Operation>, nonce: nat, window: int)
    ensures throws <==> ThrowsHandling(cfg, a)
    ensures !throws ==>
      && nonce == a.nonce + (if Advances(cfg, a.result) then 1 else 0)
      && window == a.window - (if a.result.TooMuchChaining? then 1 else 0)
      && queue == if Settles(a.result) then rest
                  else if a.result.ConflictingNonce? && cfg.strategy == Replace
                  then [operation.(feeOverride := Some(a.fee + cfg.increment))] + rest
                  else [operation] + rest
  {
    throws, queue, nonce, window := false, rest, a.nonce, a.window;
    match a.result {
      case Accepted =>
        nonce := nonce + 1;
      case ContractAlreadyExists =>
      case ConflictingNonce(rbfThrows) =>
        var retried := operation;
        if cfg.strategy == Increase {
          nonce := nonce + 1;
        } else {
          if !cfg.replaceAllowed || a.fee == 0 {
            throws := true;
            return;
          }
          retried := retried.(feeOverride := Some(a.fee + cfg.increment));
        }
        queue := [retried] + queue;
        throws := rbfThrows;
      case TooMuchChaining =>
        queue := [operation] + queue;
        window := window - 1;
      case Rejected =>
    }
  }

  /** From the first shift of the queue to the end of the call. */
  method DrainQueue(cfg: Config, input: seq<Operation>, polls: seq<Poll>, sends: seq<Send>, confirmed: bool)
    returns (ending: Ending, trace: seq<Attempt>, settled: seq<Operation>)
    requires input != [] && |polls| >= 2 && polls[0].Nonce? && polls[1].Nonce?
    ensures TraceDue(cfg, input, polls, sends, trace)
    ensures EndsAs(cfg, input, polls, sends, confirmed, trace, ending)
    ensures settled == []
  {
    hide Due, Override, SettledCount, AdvanceCount, ChainingCount, LatestPoll, PolledUntilReady, Blocked, ThrowsWaiting,
      TraceDue, QueueDue, Fee, Settles, Advances;
    trace, settled := [], [];
    EmptyTrace(cfg, input, polls, sends);
    var latest: nat, wait := 1, Ready;
    var nonce, window := polls[0].n, cfg.maxPerBlock;
    var queue := input;
    while queue != []
      invariant latest < |polls| && polls[latest].Nonce? && latest == LatestPoll(trace)
      invariant |trace| <= |sends| && TraceDue(cfg, input, polls, sends, trace)
      invariant nonce == polls[0].n + AdvanceCount(cfg, trace)
      invariant window == cfg.maxPerBlock - ChainingCount(trace)
      invariant QueueDue(cfg, input, trace, queue)
      invariant trace != [] ==> !ThrowsHandling(cfg, trace[|trace| - 1])
      decreases |sends| - |trace|
    {
      QueueLength(cfg, input, trace, queue);
      var operation, rest := queue[0], queue[1..];
      wait, latest := AwaitServer(polls, nonce, window, latest);
      if !wait.Ready? {
        return if wait.WaitThrew? then Threw else StillWaiting, trace, settled;
      }
      if |trace| == |sends| {
        return StillWaiting, trace, settled;
      }
      var send := sends[|trace|];
      var txFee := Fee(cfg, operation.feeOverride, send.quote);
      var attempt := Attempt(operation.body, nonce, txFee, latest, window, send.result);
      AttemptIsDue(cfg, input, polls, sends, trace, queue, attempt);
      CountSnoc(cfg, trace, attempt);
      ghost var before, held := trace, queue;
      trace := trace + [attempt];
      var throws;
      throws, queue, nonce, window := Handle(cfg, attempt, operation, rest);
      if throws {
        return Threw, trace, settled;
      }
      HandledKeepsQueue(cfg, input, before, held, attempt, queue);
    }
    QueueLength(cfg, input, trace, queue);
    wait, latest := AwaitServer(polls, nonce, 0, latest);
    if !wait.Ready? {
      return if wait.WaitThrew? then Threw else StillWaiting, trace, settled;
    }
    settled := queue;
    if nonce > polls[0].n && !confirmed {
      return Threw, trace, settled;
    }
    return Finished(nonce), trace, settled;
  }

  lemma HandledKeepsQueue(cfg: Config, input: seq<Operation>, trace: seq<Attempt>, queue: seq<Operation>, a: Attempt,
                          after: seq<Operation>)
    requires QueueDue(cfg, input, trace, queue) && queue != []
    requires after == if Settles(a.result) then queue[1..]
                      else if a.result.ConflictingNonce? && cfg.strategy == Replace
                      then [queue[0].(feeOverride := Some(a.fee + cfg.increment))] + queue[1..]
                      else [queue[0]] + queue[1..]
    ensures QueueDue(cfg, input, trace + [a], after)
  {
    hide QueueDue;
    if Settles(a.result) {
      SettleKeepsQueue(cfg, input, trace, queue, a);
    } else {
      RetryKeepsQueue(cfg, input, trace, queue, a, after[0]);
      assert after == [after[0]] + queue[1..];
    }
  }

  /** The whole call. Its trace is the one the scripts call for, and it ends as that trace says; the
      settlement callbacks run over a queue that is already empty, so over nothing. A finished call settled every
      operation once, in input order, and returns the start nonce plus sent plus conflicts skipped. */
  method ProcessOperations(cfg: Config, input: seq<Operation>, polls: seq<Poll>, sends: seq<Send>, confirmed: bool)
    returns (ending: Ending, trace: seq<Attempt>, settled: seq<Operation>)
    ensures TraceDue(cfg, input, polls, sends, trace)
    ensures EndsAs(cfg, input, polls, sends, confirmed, trace, ending)
    ensures settled == []
    ensures forall i :: 0 <= i < |trace| ==> InWindow(cfg, polls, trace, i)
    ensures InOrder(input, Settlements(trace))
    ensures forall i :: 0 <= i < |trace| ==> AttemptAt(cfg, input, polls, sends, trace, i)
    ensures ending.Finished? ==>
      AcceptedCount(trace) + ExistsCount(trace) + RejectedCount(trace) == |input| && |polls| > 0 && polls[0].Nonce?
    ensures ending.Finished? && input != [] ==>
      && (ending.nonce > polls[0].n ==> confirmed)
      && exists k :: 1 <= k < |polls| && polls[k].Nonce? && polls[k].n >= ending.nonce
    ensures ending.Finished? ==>
      ending.nonce == polls[0].n + AcceptedCount(trace) + if cfg.strategy == Increase then ConflictCount(trace) else 0
  {
    hide Due, PolledUntilReady, Blocked, WaitThrows, CatchesUp, InWindow, AttemptAt;
    trace, settled := [], [];
    if |polls| == 0 {
      return StillWaiting, trace, settled;
    }
    if polls[0].PollThrows? {
      return Threw, trace, settled;
    }
    if input == [] {
      return Finished(polls[0].n), trace, settled;
    }
    if |polls| == 1 {
      return StillWaiting, trace, settled;
    }
    if polls[1].PollThrows? {
      return Threw, trace, settled;
    }
    ending, trace, settled := DrainQueue(cfg, input, polls, sends, confirmed);
    forall i | 0 <= i < |trace| ensures InWindow(cfg, polls, trace, i) {
      WithinWindow(cfg, input, polls, sends, trace, i);
    }
    forall i | 0 <= i < |trace| ensures AttemptAt(cfg, input, polls, sends, trace, i) {
      AttemptExact(cfg, input, polls, sends, trace, i);
    }
    AllInOrder(cfg, input, polls, sends, trace);
    if ending.Finished? {
      FinishedSettled(cfg, input, polls, sends, confirmed, trace, ending);
    }
  }

  /** The settlements are for the first operations of the input, one each, in that order. */
  ghost predicate InOrder(input: seq<Operation>, settlements: seq<Attempt>) {
    |settlements| <= |input| && forall k :: 0 <= k < |settlements| ==> settlements[k].body == input[k].body
  }

  lemma AllInOrder(cfg: Config, input: seq<Operation>, polls: seq<Poll>, sends: seq<Send>, trace: seq<Attempt>)
    requires TraceDue(cfg, input, polls, sends, trace)
    ensures InOrder(input, Settlements(trace))
  {
    hide TraceDue, Settlements;
    var r := Settlements(trace);
    forall k | 0 <= k < |r| ensures |r| <= |input| && r[k].body == input[k].body {
      SettledInOrder(cfg, input, polls, sends, trace, k);
    }
    if |r| > 0 {
      SettledInOrder(cfg, input, polls, sends, trace, 0);
    }
  }

  lemma ServerCaughtUp(polls: seq<Poll>, nonce: nat, from: nat) returns (k: nat)
    requires CatchesUp(polls, nonce, 0, from)
    ensures from <= k < |polls| && polls[k].Nonce? && polls[k].n >= nonce
  {
    k :| PolledUntilReady(polls, nonce, 0, from, k);
  }

  /** When every operation is settled, exactly how the call ends: it finishes if the server catches up with the nonce
      reached and, should anything have been sent, the last transaction is confirmed. */
  lemma {:induction false} FinishesExactly(cfg: Config, input: seq<Operation>, polls: seq<Poll>, sends: seq<Send>,
                                           confirmed: bool, trace: seq<Attempt>, ending: Ending)
    requires TraceDue(cfg, input, polls, sends, trace) && EndsAs(cfg, input, polls, sends, confirmed, trace, ending)
    requires input != [] && |polls| >= 2 && polls[0].Nonce? && polls[1].Nonce?
    requires AcceptedCount(trace) + ExistsCount(trace) + RejectedCount(trace) == |input|
    ensures var nonce := polls[0].n + AcceptedCount(trace)
                         + if cfg.strategy == Increase then ConflictCount(trace) else 0;
      && (ending.Finished? <==> CatchesUp(polls, nonce, 0, LatestPoll(trace)) && (nonce > polls[0].n ==> confirmed))
      && (ending.StillWaiting? ==>
            forall k :: LatestPoll(trace) <= k < |polls| ==> polls[k].Nonce? && polls[k].n < nonce)
  {
    hide TraceDue, AdvanceCount, SettledCount, AcceptedCount, ConflictCount, ExistsCount, RejectedCount, LatestPoll;
    NonceAccounting(cfg, trace);
    SettledAre(trace);
    if trace != [] {
      LastSettles(cfg, input, polls, sends, trace);
    }
  }

  /** The attempt that settles the last operation is the last one. */
  lemma {:induction false} LastSettles(cfg: Config, input: seq<Operation>, polls: seq<Poll>, sends: seq<Send>,
                                       trace: seq<Attempt>)
    requires TraceDue(cfg, input, polls, sends, trace) && trace != [] && SettledCount(trace) == |input|
    ensures !ThrowsHandling(cfg, trace[|trace| - 1])
  {
    hide PolledUntilReady, Override, AdvanceCount, ChainingCount;
    var n := |trace| - 1;
    assert Due(cfg, input, polls, sends, trace[..n], trace[n]);
  }

  lemma FinishedSettled(cfg: Config, input: seq<Operation>, polls: seq<Poll>, sends: seq<Send>, confirmed: bool,
                        trace: seq<Attempt>, ending: Ending)
    requires TraceDue(cfg, input, polls, sends, trace) && EndsAs(cfg, input, polls, sends, confirmed, trace, ending)
    requires input != [] && |polls| >= 2 && polls[0].Nonce? && polls[1].Nonce? && ending.Finished?
    ensures AcceptedCount(trace) + ExistsCount(trace) + RejectedCount(trace) == |input|
    ensures ending.nonce > polls[0].n ==> confirmed
    ensures exists k :: 1 <= k < |polls| && polls[k].Nonce? && polls[k].n >= ending.nonce
    ensures ending.nonce == polls[0].n + AcceptedCount(trace)
                            + if cfg.strategy == Increase then ConflictCount(trace) else 0
  {
    hide TraceDue, CatchesUp, WaitThrows, Blocked, AdvanceCount, SettledCount, AcceptedCount, ConflictCount,
      ExistsCount, RejectedCount;
    NonceAccounting(cfg, trace);
    SettledAre(trace);
    if SettledCount(trace) > |input| {
      SettledInOrder(cfg, input, polls, sends, trace, 0);
    }
    var k := ServerCaughtUp(polls, ending.nonce, LatestPoll(trace));
    if trace != [] {
      WithinWindow(cfg, input, polls, sends, trace, |trace| - 1);
    }
  }

  lemma EmptyTrace(cfg: Config, input: seq<Operation>, polls: seq<Poll>, sends: seq<Send>)
    ensures TraceDue(cfg, input, polls, sends, []) && QueueDue(cfg, input, [], input)
    ensures AdvanceCount(cfg, []) == ChainingCount([]) == SettledCount([]) == 0 && LatestPoll([]) == 1
  {
  }

  lemma QueueLength(cfg: Config, input: seq<Operation>, trace: seq<Attempt>, queue: seq<Operation>)
    requires QueueDue(cfg, input, trace, queue)
    ensures SettledCount(trace) + |queue| == |input|
  {
  }

  lemma {:induction false} AttemptIsDue(cfg: Config, input: seq<Operation>, polls: seq<Poll>, sends: seq<Send>,
                                        trace: seq<Attempt>, queue: seq<Operation>, a: Attempt)
    requires TraceDue(cfg, input, polls, sends, trace) && |trace| < |sends| && |polls| >= 2 && polls[0].Nonce?
    requires QueueDue(cfg, input, trace, queue) && queue != []
    requires PolledUntilReady(polls, a.nonce, a.window, LatestPoll(trace), a.poll)
    requires trace != [] ==> !ThrowsHandling(cfg, trace[|trace| - 1])
    requires a == Attempt(queue[0].body, polls[0].n + AdvanceCount(cfg, trace),
                          Fee(cfg, queue[0].feeOverride, sends[|trace|].quote), a.poll,
                          cfg.maxPerBlock - ChainingCount(trace), sends[|trace|].result)
    ensures TraceDue(cfg, input, polls, sends, trace + [a])
    ensures a.poll < |polls| && polls[a.poll].Nonce?
  {
    hide Override, TraceDue;
    TraceDueSnoc(cfg, input, polls, sends, trace, a);
  }

  // ---------- what every such trace satisfies ----------

  /** The attempts that settled an operation, in order. */
  function Settlements(trace: seq<Attempt>): (r: seq<Attempt>)
    ensures |r| == SettledCount(trace)
  {
    if trace == [] then []
    else
      var rest, a := Settlements(trace[..|trace| - 1]), trace[|trace| - 1];
      if Settles(a.result) then rest + [a] else rest
  }

  lemma TraceDuePrefix(cfg: Config, input: seq<Operation>, polls: seq<Poll>, sends: seq<Send>,
                       trace: seq<Attempt>, n: nat)
    requires TraceDue(cfg, input, polls, sends, trace) && n <= |trace|
    ensures TraceDue(cfg, input, polls, sends, trace[..n])
  {
    hide Due;
    forall i | 0 <= i < n ensures Due(cfg, input, polls, sends, trace[..n][..i], trace[..n][i]) {
      assert trace[..n][..i] == trace[..i];
    }
  }

  /** Each operation is settled once, in input order: the k-th settling attempt is for operation k. With
      the method's contract, a finished call has settled exactly the input. */
  lemma {:induction false} SettledInOrder(cfg: Config, input: seq<Operation>, polls: seq<Poll>, sends: seq<Send>,
                                          trace: seq<Attempt>, k: nat)
    requires TraceDue(cfg, input, polls, sends, trace) && k < SettledCount(trace)
    ensures SettledCount(trace) <= |input| && Settlements(trace)[k].body == input[k].body
    decreases |trace|
  {
    hide PolledUntilReady, Override, AdvanceCount, ChainingCount;
    var n := |trace| - 1;
    TraceDuePrefix(cfg, input, polls, sends, trace, n);
    assert Due(cfg, input, polls, sends, trace[..n], trace[n]);
    if k < SettledCount(trace[..n]) {
      SettledInOrder(cfg, input, polls, sends, trace[..n], k);
    }
  }

  lemma {:induction false} AdvanceMonotone(cfg: Config, trace: seq<Attempt>, i: nat, j: nat)
    requires i < j <= |trace|
    ensures AdvanceCount(cfg, trace[..j])
         >= AdvanceCount(cfg, trace[..i]) + if Advances(cfg, trace[i].result) then 1 else 0
    decreases j
  {
    assert trace[..j][..j - 1] == trace[..j - 1] && trace[..j][j - 1] == trace[j - 1];
    if i < j - 1 {
      AdvanceMonotone(cfg, trace, i, j - 1);
    }
  }

  /** Nonces never go down, and go up past every attempt that was accepted or skipped on a conflict: no
      nonce carries two accepted operations. */
  lemma NoncesIncrease(cfg: Config, input: seq<Operation>, polls: seq<Poll>, sends: seq<Send>,
                       trace: seq<Attempt>, i: nat, j: nat)
    requires TraceDue(cfg, input, polls, sends, trace) && i < j < |trace|
    ensures trace[i].nonce <= trace[j].nonce
    ensures Advances(cfg, trace[i].result) ==> trace[i].nonce < trace[j].nonce
  {
    hide PolledUntilReady, Override, AdvanceCount, ChainingCount, SettledCount;
    assert Due(cfg, input, polls, sends, trace[..i], trace[i]);
    assert Due(cfg, input, polls, sends, trace[..j], trace[j]);
    AdvanceMonotone(cfg, trace, i, j);
  }

  function AcceptedCount(trace: seq<Attempt>): nat {
    if trace == [] then 0
    else AcceptedCount(trace[..|trace| - 1]) + if trace[|trace| - 1].result.Accepted? then 1 else 0
  }

  function ConflictCount(trace: seq<Attempt>): nat {
    if trace == [] then 0
    else ConflictCount(trace[..|trace| - 1]) + if trace[|trace| - 1].result.ConflictingNonce? then 1 else 0
  }

  function ExistsCount(trace: seq<Attempt>): nat {
    if trace == [] then 0
    else ExistsCount(trace[..|trace| - 1]) + if trace[|trace| - 1].result.ContractAlreadyExists? then 1 else 0
  }

  function RejectedCount(trace: seq<Attempt>): nat {
    if trace == [] then 0
    else RejectedCount(trace[..|trace| - 1]) + if trace[|trace| - 1].result.Rejected? then 1 else 0
  }

  /** An operation is settled by being accepted, by its contract being there already, or by any other rejection; a
      conflicting nonce and too much chaining leave it where it is. */
  lemma {:induction false} SettledAre(trace: seq<Attempt>)
    ensures SettledCount(trace) == AcceptedCount(trace) + ExistsCount(trace) + RejectedCount(trace)
  {
    if trace != [] {
      SettledAre(trace[..|trace| - 1]);
    }
  }

  /** The fee that conflicts under "replace" have raised for the operation at hand, if any. */
  function RaisedFee(cfg: Config, trace: seq<Attempt>): Option<nat> {
    if trace == [] then None
    else
      var a := trace[|trace| - 1];
      match a.result
      case Accepted => None
      case ContractAlreadyExists => None
      case Rejected => None
      case ConflictingNonce(_) =>
        if cfg.strategy == Replace then Some(a.fee + cfg.increment) else RaisedFee(cfg, trace[..|trace| - 1])
      case TooMuchChaining => RaisedFee(cfg, trace[..|trace| - 1])
  }

  lemma {:induction false} OverrideIs(cfg: Config, input: seq<Operation>, trace: seq<Attempt>)
    requires SettledCount(trace) < |input|
    ensures Override(cfg, input, trace) ==
      if RaisedFee(cfg, trace).Some? then RaisedFee(cfg, trace) else input[SettledCount(trace)].feeOverride
  {
    if trace != [] && !Settles(trace[|trace| - 1].result) {
      OverrideIs(cfg, input, trace[..|trace| - 1]);
    }
  }

  /** Attempt `i` in closed form: it is for the first operation not yet accepted, found existing or rejected, at the
      start nonce plus those accepted plus, under "increase", the conflicts; its fee is the raised one, else the
      operation's own, else that of the options, else the quote. */
  ghost predicate AttemptAt(cfg: Config, input: seq<Operation>, polls: seq<Poll>, sends: seq<Send>,
                            trace: seq<Attempt>, i: nat)
    requires i < |trace|
  {
    var before := trace[..i];
    var m := AcceptedCount(before) + ExistsCount(before) + RejectedCount(before);
    && i < |sends| && trace[i].result == sends[i].result
    && m < |input| && trace[i].body == input[m].body
    && |polls| > 0 && polls[0].Nonce?
    && trace[i].nonce == polls[0].n + AcceptedCount(before)
                         + (if cfg.strategy == Increase then ConflictCount(before) else 0)
    && trace[i].fee == (if RaisedFee(cfg, before).Some? then RaisedFee(cfg, before).value
                        else if input[m].feeOverride.Some? then input[m].feeOverride.value
                        else if cfg.fee.Some? then cfg.fee.value
                        else sends[i].quote)
  }

  lemma {:induction false} AttemptExact(cfg: Config, input: seq<Operation>, polls: seq<Poll>, sends: seq<Send>,
                                        trace: seq<Attempt>, i: nat)
    requires TraceDue(cfg, input, polls, sends, trace) && i < |trace|
    ensures AttemptAt(cfg, input, polls, sends, trace, i)
  {
    hide PolledUntilReady, Override, AdvanceCount, ChainingCount, SettledCount, AcceptedCount, ExistsCount,
      RejectedCount, ConflictCount, RaisedFee;
    assert Due(cfg, input, polls, sends, trace[..i], trace[i]);
    SettledAre(trace[..i]);
    NonceAccounting(cfg, trace[..i]);
    OverrideIs(cfg, input, trace[..i]);
  }

  /** What each reply means for the next attempt: after an acceptance, an existing contract or a rejection it is for
      the next operation of the input, after a conflict or too much chaining for the same one. */
  lemma {:induction false} NextAttempt(cfg: Config, input: seq<Operation>, polls: seq<Poll>, sends: seq<Send>,
                                       trace: seq<Attempt>, i: nat)
    returns (m: nat)
    requires TraceDue(cfg, input, polls, sends, trace) && i + 1 < |trace|
    ensures m < |input| && trace[i].body == input[m].body
    ensures trace[i].result.Accepted? || trace[i].result.ContractAlreadyExists? || trace[i].result.Rejected? ==>
      m + 1 < |input| && trace[i + 1].body == input[m + 1].body
    ensures trace[i].result.ConflictingNonce? || trace[i].result.TooMuchChaining? ==>
      trace[i + 1].body == input[m].body
    ensures trace[i + 1].nonce == trace[i].nonce
      + (if trace[i].result.Accepted? || (trace[i].result.ConflictingNonce? && cfg.strategy == Increase) then 1 else 0)
  {
    AttemptExact(cfg, input, polls, sends, trace, i);
    AttemptExact(cfg, input, polls, sends, trace, i + 1);
    m := AcceptedCount(trace[..i]) + ExistsCount(trace[..i]) + RejectedCount(trace[..i]);
    assert trace[..i + 1][..i] == trace[..i] && trace[..i + 1][i] == trace[i];
  }

  lemma NoThrowBefore(cfg: Config, input: seq<Operation>, polls: seq<Poll>, sends: seq<Send>,
                      trace: seq<Attempt>, i: nat)
    requires TraceDue(cfg, input, polls, sends, trace) && i + 1 < |trace|
    ensures !ThrowsHandling(cfg, trace[i])
  {
    hide PolledUntilReady, Override, AdvanceCount, ChainingCount, SettledCount, ThrowsHandling;
    var before := trace[..i + 1];
    assert before[|before| - 1] == trace[i];
    assert Due(cfg, input, polls, sends, before, trace[i + 1]);
  }

  /** When a conflict ends the call: when its replace-by-fee attempt throws, or under "replace" when replacing is not
      allowed or no fee was set. No attempt follows such a conflict, and a trace that ends in one ends in a throw. */
  lemma {:induction false} ConflictThrows(cfg: Config, input: seq<Operation>, polls: seq<Poll>, sends: seq<Send>,
                                          confirmed: bool, trace: seq<Attempt>, ending: Ending, i: nat)
    requires TraceDue(cfg, input, polls, sends, trace) && EndsAs(cfg, input, polls, sends, confirmed, trace, ending)
    requires i < |trace| && trace[i].result.ConflictingNonce?
    requires trace[i].result.rbfThrows || (cfg.strategy == Replace && (!cfg.replaceAllowed || trace[i].fee == 0))
    ensures |trace| == i + 1 && ending == Threw
  {
    hide PolledUntilReady, Override, AdvanceCount, ChainingCount, SettledCount;
    if i + 1 < |trace| {
      NoThrowBefore(cfg, input, polls, sends, trace, i);
    }
    assert Due(cfg, input, polls, sends, trace[..i], trace[i]);
  }

  /** Accounting: the nonce moves on by one for each operation sent and, under the increase strategy, for
      each conflict retried - and for nothing else. */
  lemma {:induction false} NonceAccounting(cfg: Config, trace: seq<Attempt>)
    ensures AdvanceCount(cfg, trace)
         == AcceptedCount(trace) + if cfg.strategy == Increase then ConflictCount(trace) else 0
  {
    if trace != [] {
      NonceAccounting(cfg, trace[..|trace| - 1]);
    }
  }

  /** Attempt `i` is within the window of the latest server nonce, the first since the attempt before that let it in;
      the window has shrunk by one for each "too much chaining" before it. The first poll only gives the start, and
      while it waited no replace-by-fee attempt threw. */
  ghost predicate InWindow(cfg: Config, polls: seq<Poll>, trace: seq<Attempt>, i: nat)
    requires i < |trace|
  {
    var from, window := if i == 0 then 1 else trace[i - 1].poll, cfg.maxPerBlock - ChainingCount(trace[..i]);
    && 1 <= from <= trace[i].poll < |polls| && polls[trace[i].poll].Nonce?
    && trace[i].nonce <= polls[trace[i].poll].n + window
    && (forall k :: from <= k < trace[i].poll ==> polls[k].Nonce? && trace[i].nonce > polls[k].n + window)
    && (forall k :: from < k < trace[i].poll ==> !polls[k].rbfThrows)
  }

  lemma WithinWindow(cfg: Config, input: seq<Operation>, polls: seq<Poll>, sends: seq<Send>,
                     trace: seq<Attempt>, i: nat)
    requires TraceDue(cfg, input, polls, sends, trace) && i < |trace|
    ensures InWindow(cfg, polls, trace, i)
  {
    hide Override, AdvanceCount, SettledCount;
    assert Due(cfg, input, polls, sends, trace[..i], trace[i]);
    if i > 0 {
      WithinWindow(cfg, input, polls, sends, trace, i - 1);
      assert trace[..i][i - 1] == trace[i - 1];
    }
  }

  /** A conflict is retried at once: under "replace" with the same nonce and a fee raised by the increment,
      under "increase" with the next nonce. */
  lemma ConflictIsRetried(cfg: Config, input: seq<Operation>, polls: seq<Poll>, sends: seq<Send>,
                          trace: seq<Attempt>, i: nat)
    requires TraceDue(cfg, input, polls, sends, trace) && i + 1 < |trace| && trace[i].result.ConflictingNonce?
    ensures trace[i + 1].body == trace[i].body
    ensures cfg.strategy == Increase ==> trace[i + 1].nonce == trace[i].nonce + 1
    ensures cfg.strategy == Replace ==>
      trace[i + 1].nonce == trace[i].nonce && trace[i + 1].fee == trace[i].fee + cfg.increment
  {
    hide PolledUntilReady;
    assert Due(cfg, input, polls, sends, trace[..i], trace[i]);
    assert Due(cfg, input, polls, sends, trace[..i + 1], trace[i + 1]);
    assert trace[..i + 1] == trace[..i] + [trace[i]];
    CountSnoc(cfg, trace[..i], trace[i]);
  }

  /** With a window below 0 an attempt waits for a server nonce above its own. */
  lemma BelowZeroNeedsMore(polls: seq<Poll>, nonce: nat, window: int, from: nat) returns (k: nat)
    requires window < 0 && CatchesUp(polls, nonce, window, from)
    ensures from <= k < |polls| && polls[k].Nonce? && polls[k].n > nonce
  {
    k :| PolledUntilReady(polls, nonce, window, from, k);
  }

  /** When a call can no longer progress: each chaining reply shrinks the window, and once there were more of them
      than the window was wide, an unsettled queue stalls unless the server runs ahead of the sender. As long as
      no later reply is above the nonce reached, there is no further attempt, the call does not finish, and if
      nothing throws either it waits forever. */
  lemma {:induction false} ShrunkWindowStalls(cfg: Config, input: seq<Operation>, polls: seq<Poll>, sends: seq<Send>,
                                              confirmed: bool, trace: seq<Attempt>, ending: Ending, i: nat)
    requires TraceDue(cfg, input, polls, sends, trace) && EndsAs(cfg, input, polls, sends, confirmed, trace, ending)
    requires |polls| >= 2 && polls[0].Nonce? && polls[1].Nonce? && i <= |trace|
    requires ChainingCount(trace[..i]) > cfg.maxPerBlock && SettledCount(trace[..i]) < |input|
    requires forall k :: LatestPoll(trace[..i]) <= k < |polls| && polls[k].Nonce? ==>
      polls[k].n <= polls[0].n + AdvanceCount(cfg, trace[..i])
    ensures |trace| == i && !ending.Finished?
    ensures (&& (forall k :: LatestPoll(trace) <= k < |polls| ==> polls[k].Nonce? && !polls[k].rbfThrows)
             && (trace != [] ==> !ThrowsHandling(cfg, trace[|trace| - 1]))) ==> ending == StillWaiting
  {
    hide Override, AdvanceCount, ChainingCount, SettledCount, ThrowsHandling;
    if i < |trace| {
      assert false;
    }
    assert trace[..i] == trace;
  }
}
