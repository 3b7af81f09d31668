/** Safety of the oracle over every run: quorum, one-use signatures, mined before indexed, batches. */
module OracleTheorems {
  import opened Clarity
  import opened Registry
  import opened Oracle
  import opened OracleRuns

  // ---------- quorum safety ----------

  /** Where an entry of the log comes from: call `n` of the run, which met this validator set and this
      requirement and carried this signed event. */
  lemma {:induction false} LogOrigin(env: Env, s: State, calls: seq<Sent>, i: nat) returns (n: nat)
    requires i < |Log(env, s, calls)|
    ensures n < |calls| && calls[n].call.IndexMany? && Log(env, s, calls)[i].signed in calls[n].call.txs
    ensures var before := Run(env, s, calls[..n]);
      && Log(env, s, calls)[i].validators == before.validators
      && Log(env, s, calls)[i].required == before.required
      && Step(env, before, calls[n].sender, calls[n].call).Ok?
    decreases |calls|
  {
    hide Step;
    var first := CallLog(env, s, calls[0]);
    if i < |first| {
      n := 0;
      assert Log(env, s, calls)[i] == first[i];
      assert calls[..0] == [];
    } else {
      var s' := After(env, s, calls[0]);
      assert Log(env, s, calls)[i] == Log(env, s', calls[1..])[i - |first|];
      var m := LogOrigin(env, s', calls[1..], i - |first|);
      n := m + 1;
      assert calls[..n][0] == calls[0] && calls[..n][1..] == calls[1..][..m];
    }
  }

  lemma {:induction false} LogMeetsQuorum(env: Env, l: Ledger, log: seq<Commit>, i: nat)
    requires LogAllowed(env, l, log) && i < |log|
    ensures QuorumMet(env, log[i])
    decreases |log|
  {
    if i > 0 {
      LogMeetsQuorum(env, ApplyEvent(env, l, log[0].signed), log[1..], i - 1);
    }
  }

  /** A replayed entry was there before or comes from the last commit of its key. */
  lemma {:induction false} IndexedOrigin(env: Env, l: Ledger, log: seq<Commit>, key: IndexKey) returns (i: int)
    ensures -1 <= i < |log|
    ensures i == -1 ==> (key in Replay(env, l, log).indexed <==> key in l.indexed)
    ensures i == -1 && key in l.indexed ==> Replay(env, l, log).indexed[key] == l.indexed[key]
    ensures i >= 0 ==> KeyOf(log[i].signed.tx) == key && key in Replay(env, l, log).indexed
    ensures i >= 0 ==> Replay(env, l, log).indexed[key] == TransferOf(log[i].signed.tx)
    ensures forall j :: i < j < |log| ==> KeyOf(log[j].signed.tx) != key
    decreases |log|
  {
    hide ApplyPairs, ApplyBalance, ApplyMined;
    if log == [] {
      i := -1;
    } else {
      i := IndexedOrigin(env, ApplyEvent(env, l, log[0].signed), log[1..], key);
      if i >= 0 || KeyOf(log[0].signed.tx) == key {
        i := i + 1;
      }
    }
  }

  /** Quorum safety: starting from an empty index, whatever stands in the index after any run was put there
      by a logged event that carried at least the then-required number of packs, from pairwise distinct
      validators registered at that step, each recovering to its signer's key over exactly that event. */
  lemma QuorumSafety(env: Env, s: State, calls: seq<Sent>, key: IndexKey) returns (i: nat, n: nat)
    requires s.registry.indexed == map[]
    requires key in Run(env, s, calls).registry.indexed
    ensures i < |Log(env, s, calls)| && n < |calls|
    ensures var c := Log(env, s, calls)[i]; var before := Run(env, s, calls[..n]);
      && key == IndexKey(c.signed.tx.bitcoinTx, c.signed.tx.output, c.signed.tx.offset)
      && Run(env, s, calls).registry.indexed[key]
         == Transfer(c.signed.tx.tick, c.signed.tx.amt, c.signed.tx.from, c.signed.tx.to)
      && calls[n].call.IndexMany? && c.signed in calls[n].call.txs
      && Step(env, before, calls[n].sender, calls[n].call).Ok?
      && |c.signed.packs| >= before.required
      && AllSigned(env, before.validators, env.hashTx(c.signed.tx), c.signed.packs)
  {
    hide Log, Run, Replay, LogAllowed, AllSigned;
    var log := Log(env, s, calls);
    RunReplays(env, s, calls);
    var at := IndexedOrigin(env, LedgerOf(s), log, key);
    i := at;
    LogMeetsQuorum(env, LedgerOf(s), log, i);
    n := LogOrigin(env, s, calls, i);
  }

  // ---------- signatures are used once ----------

  function TotalPacks(log: seq<Commit>): nat {
    if log == [] then 0 else |log[0].signed.packs| + TotalPacks(log[1..])
  }

  lemma {:induction false} PairsConserved(env: Env, l: Ledger, log: seq<Commit>)
    requires LogAllowed(env, l, log)
    ensures |Replay(env, l, log).used| == |l.used| + TotalPacks(log)
    ensures l.used <= Replay(env, l, log).used
    decreases |log|
  {
    hide ApplyBalance, ApplyMined, Pairs, PackValid;
    if log != [] {
      var t := log[0].signed;
      PairsCount(env.hashTx(t.tx), t.packs);
      PairsConserved(env, ApplyEvent(env, l, t), log[1..]);
    }
  }

  /** No pair is used by two commits. */
  lemma {:induction false} PairsDisjoint(env: Env, l: Ledger, log: seq<Commit>, i: nat, j: nat)
    requires LogAllowed(env, l, log) && i < j < |log|
    ensures Pairs(env.hashTx(log[i].signed.tx), log[i].signed.packs)
         !! Pairs(env.hashTx(log[j].signed.tx), log[j].signed.packs)
    decreases |log|
  {
    hide ApplyBalance, ApplyMined, Pairs, QuorumMet;
    var l' := ApplyEvent(env, l, log[0].signed);
    if i > 0 {
      PairsDisjoint(env, l', log[1..], i - 1, j - 1);
    } else {
      StaysUsed(env, l', log[1..], j - 1);
    }
  }

  lemma {:induction false} StaysUsed(env: Env, l: Ledger, log: seq<Commit>, j: nat)
    requires LogAllowed(env, l, log) && j < |log|
    ensures l.used !! Pairs(env.hashTx(log[j].signed.tx), log[j].signed.packs)
    decreases |log|
  {
    hide ApplyBalance, ApplyMined, Pairs, QuorumMet;
    if j > 0 {
      StaysUsed(env, ApplyEvent(env, l, log[0].signed), log[1..], j - 1);
    }
  }

  /** Conservation over every run: as many pairs are recorded as packs were carried by the successful
      events, no pair is used twice, and a recorded pair is never forgotten. */
  lemma SignaturesConserved(env: Env, s: State, calls: seq<Sent>)
    ensures |Run(env, s, calls).validatedBy| == |s.validatedBy| + TotalPacks(Log(env, s, calls))
    ensures s.validatedBy <= Run(env, s, calls).validatedBy
    ensures var log := Log(env, s, calls);
      forall i, j :: 0 <= i < j < |log| ==>
        Pairs(env.hashTx(log[i].signed.tx), log[i].signed.packs)
        !! Pairs(env.hashTx(log[j].signed.tx), log[j].signed.packs)
  {
    hide Log, Run, Replay, LogAllowed, Pairs;
    var log := Log(env, s, calls);
    RunReplays(env, s, calls);
    PairsConserved(env, LedgerOf(s), log);
    forall i, j | 0 <= i < j < |log|
      ensures Pairs(env.hashTx(log[i].signed.tx), log[i].signed.packs)
           !! Pairs(env.hashTx(log[j].signed.tx), log[j].signed.packs)
    {
      PairsDisjoint(env, LedgerOf(s), log, i, j);
    }
  }

  // ---------- how often one event hash can be indexed ----------

  function TimesIndexed(env: Env, log: seq<Commit>, h: Bytes): nat {
    if log == [] then 0
    else (if env.hashTx(log[0].signed.tx) == h then 1 else 0) + TimesIndexed(env, log[1..], h)
  }

  /** The validators that signed hash `h` in the log. */
  function Voters(env: Env, log: seq<Commit>, h: Bytes): set<Principal> {
    if log == [] then {}
    else (if env.hashTx(log[0].signed.tx) == h then PackSigners(log[0].signed.packs) else {}) + Voters(env, log[1..], h)
  }

  function PackSigners(packs: seq<SignaturePack>): set<Principal> {
    set i | 0 <= i < |packs| :: packs[i].signer
  }

  lemma SignersSnoc(init: seq<SignaturePack>, last: SignaturePack)
    ensures PackSigners(init + [last]) == PackSigners(init) + {last.signer}
  {
    var packs := init + [last];
    forall v | v in PackSigners(init) ensures v in PackSigners(packs) {
      var i :| 0 <= i < |init| && init[i].signer == v;
      assert packs[i].signer == v;
    }
    assert packs[|init|].signer in PackSigners(packs);
  }

  lemma {:induction false} SignersCount(packs: seq<SignaturePack>)
    requires DistinctSigners(packs)
    ensures |PackSigners(packs)| == |packs|
  {
    if packs != [] {
      var init, last := packs[..|packs| - 1], packs[|packs| - 1];
      SignersCount(init);
      SignersSnoc(init, last);
      assert packs == init + [last];
      assert last.signer !in PackSigners(init);
    }
  }

  lemma CommitVotes(env: Env, c: Commit)
    requires QuorumMet(env, c)
    ensures |PackSigners(c.signed.packs)| >= c.required
  {
    SignersCount(c.signed.packs);
  }

  lemma VotersUnused(env: Env, l: Ledger, log: seq<Commit>, h: Bytes, v: Principal)
    requires LogAllowed(env, l, log) && v in Voters(env, log, h)
    ensures (h, v) !in l.used
    decreases |log|
  {
    hide ApplyBalance, ApplyMined, QuorumMet;
    var t := log[0].signed;
    if env.hashTx(t.tx) == h && v in PackSigners(t.packs) {
      assert (h, v) in Pairs(h, t.packs);
    } else {
      VotersUnused(env, ApplyEvent(env, l, t), log[1..], h, v);
    }
  }

  lemma VotesDisjoint(env: Env, l: Ledger, t: SignedTx, rest: seq<Commit>)
    requires LogAllowed(env, ApplyEvent(env, l, t), rest)
    ensures PackSigners(t.packs) !! Voters(env, rest, env.hashTx(t.tx))
  {
    hide ApplyBalance, ApplyMined, LogAllowed, Voters;
    var h := env.hashTx(t.tx);
    forall v | v in PackSigners(t.packs) ensures v !in Voters(env, rest, h) {
      assert (h, v) in Pairs(h, t.packs);
      if v in Voters(env, rest, h) {
        VotersUnused(env, ApplyEvent(env, l, t), rest, h, v);
      }
    }
  }

  /** `k` votes for each time `h` was indexed. */
  function VotesNeeded(env: Env, log: seq<Commit>, h: Bytes, k: nat): nat {
    if log == [] then 0
    else (if env.hashTx(log[0].signed.tx) == h then k else 0) + VotesNeeded(env, log[1..], h, k)
  }

  lemma {:induction false} VotesNeededIs(env: Env, log: seq<Commit>, h: Bytes, k: nat)
    ensures VotesNeeded(env, log, h, k) == k * TimesIndexed(env, log, h)
    decreases |log|
  {
    if log != [] {
      VotesNeededIs(env, log[1..], h, k);
      OneMore(k, TimesIndexed(env, log[1..], h));
    }
  }

  lemma OneMore(k: nat, n: nat)
    ensures k * (1 + n) == k + k * n
  {
  }

  lemma {:induction false} VotesAddUp(env: Env, l: Ledger, log: seq<Commit>, h: Bytes, k: nat)
    requires LogAllowed(env, l, log)
    requires forall i :: 0 <= i < |log| && env.hashTx(log[i].signed.tx) == h ==> log[i].required >= k
    ensures VotesNeeded(env, log, h, k) <= |Voters(env, log, h)|
    decreases |log|
  {
    hide ApplyEvent, AllSigned, PackSigners, Pairs;
    if log != [] {
      var t, rest := log[0].signed, log[1..];
      VotesAddUp(env, ApplyEvent(env, l, t), rest, h, k);
      if env.hashTx(t.tx) == h {
        CommitVotes(env, log[0]);
        VotesDisjoint(env, l, t, rest);
        var now, later := PackSigners(t.packs), Voters(env, rest, h);
        assert |now + later| == |now| + |later|;
      }
    }
  }

  /** Every validator that was registered at some point of the run. */
  function EverRegistered(env: Env, s: State, calls: seq<Sent>): set<Principal>
    decreases |calls|
  {
    s.validators.Keys + if calls == [] then {} else EverRegistered(env, After(env, s, calls[0]), calls[1..])
  }

  lemma {:induction false} EverContains(env: Env, s: State, calls: seq<Sent>, n: nat)
    requires n <= |calls|
    ensures Run(env, s, calls[..n]).validators.Keys <= EverRegistered(env, s, calls)
    decreases |calls|
  {
    hide After;
    if n > 0 {
      var s' := After(env, s, calls[0]);
      EverContains(env, s', calls[1..], n - 1);
      assert calls[..n][0] == calls[0] && calls[..n][1..] == calls[1..][..n - 1];
    }
  }

  lemma {:induction false} VotersFromLog(env: Env, log: seq<Commit>, h: Bytes, v: Principal) returns (i: nat)
    requires v in Voters(env, log, h)
    ensures i < |log| && v in PackSigners(log[i].signed.packs)
    decreases |log|
  {
    if env.hashTx(log[0].signed.tx) == h && v in PackSigners(log[0].signed.packs) {
      i := 0;
    } else {
      var j := VotersFromLog(env, log[1..], h, v);
      i := j + 1;
    }
  }

  /** A bound on replays: while every indexing of hash `h` required at least k >= 1 validators, `h` was
      indexed at most (validators ever registered) / k times. */
  lemma ReplayBound(env: Env, s: State, calls: seq<Sent>, h: Bytes, k: nat)
    requires k >= 1
    requires var log := Log(env, s, calls);
      forall i :: 0 <= i < |log| && env.hashTx(log[i].signed.tx) == h ==> log[i].required >= k
    ensures k * TimesIndexed(env, Log(env, s, calls), h) <= |EverRegistered(env, s, calls)|
  {
    hide Log, Run, Replay, LogAllowed, EverRegistered, Voters, TimesIndexed;
    var log, ever := Log(env, s, calls), EverRegistered(env, s, calls);
    RunReplays(env, s, calls);
    VotesAddUp(env, LedgerOf(s), log, h, k);
    VotesNeededIs(env, log, h, k);
    forall v | v in Voters(env, log, h) ensures v in ever {
      var i := VotersFromLog(env, log, h, v);
      LogMeetsQuorum(env, LedgerOf(s), log, i);
      var n := LogOrigin(env, s, calls, i);
      EverContains(env, s, calls, n);
      var j :| 0 <= j < |log[i].signed.packs| && log[i].signed.packs[j].signer == v;
      assert PackValid(env, log[i].validators, env.hashTx(log[i].signed.tx), log[i].signed.packs[j]);
    }
    SubsetSize(Voters(env, log, h), ever);
  }

  // ---------- mined before indexed ----------

  /** Every indexed key's transaction is in the mined map. */
  ghost predicate IndexedAreMined(l: Ledger) {
    forall key :: key in l.indexed ==> key.txHash in l.mined
  }

  lemma {:induction false} MinedReplay(env: Env, l: Ledger, log: seq<Commit>, tx: Bytes) returns (i: int)
    requires LogAllowed(env, l, log)
    ensures IndexedAreMined(l) ==> IndexedAreMined(Replay(env, l, log))
    ensures tx in l.mined ==> tx in Replay(env, l, log).mined && Replay(env, l, log).mined[tx] == l.mined[tx]
    ensures -1 <= i < |log|
    ensures tx in Replay(env, l, log).mined && tx !in l.mined ==>
      && i >= 0 && log[i].signed.tx.bitcoinTx == tx
      && log[i].signed.block.height == Replay(env, l, log).mined[tx]
      && env.verifyMined(tx, log[i].signed.block, log[i].signed.proof).Ok?
    decreases |log|
  {
    hide ApplyBalance, ApplyPairs, QuorumMet, Pairs;
    i := -1;
    if log != [] {
      i := MinedReplay(env, ApplyEvent(env, l, log[0].signed), log[1..], tx);
      i := if tx !in l.mined && log[0].signed.tx.bitcoinTx == tx then 0 else if i >= 0 then i + 1 else -1;
    }
  }

  /** Over every run: indexed implies mined, a mined height is never changed, and a transaction enters the
      mined map only with a logged event whose proof verify-mined accepted at exactly that height. */
  lemma IndexedImpliesMined(env: Env, s: State, calls: seq<Sent>, tx: Bytes) returns (i: int)
    ensures var s' := Run(env, s, calls);
      && (IndexedAreMined(LedgerOf(s)) ==> IndexedAreMined(LedgerOf(s')))
      && (tx in s.registry.mined ==> tx in s'.registry.mined && s'.registry.mined[tx] == s.registry.mined[tx])
      && (tx in s'.registry.mined && tx !in s.registry.mined ==>
           var log := Log(env, s, calls);
           && 0 <= i < |log| && log[i].signed.tx.bitcoinTx == tx
           && log[i].signed.block.height == s'.registry.mined[tx]
           && env.verifyMined(tx, log[i].signed.block, log[i].signed.proof).Ok?)
  {
    hide Log, Run, Replay, LogAllowed;
    RunReplays(env, s, calls);
    i := MinedReplay(env, LedgerOf(s), Log(env, s, calls), tx);
  }

  // ---------- batches ----------

  /** One call per event, in order, each required to succeed. */
  function OneByOne(env: Env, s: State, sender: Principal, ts: seq<SignedTx>): Outcome<State>
    decreases |ts|
  {
    if ts == [] then Ok(s)
    else
      var s' :- IndexTxMany(env, s, sender, [ts[0]]);
      OneByOne(env, s', sender, ts[1..])
  }

  lemma SingleCall(env: Env, s: State, sender: Principal, t: SignedTx)
    requires !s.paused && sender in s.relayers
    ensures IndexTxMany(env, s, sender, [t]) == IndexTx(env, s, t)
  {
    hide IndexTx;
    assert [t][1..] == [];
    assert IndexTxs(env, s, [t]) ==
      if IndexTx(env, s, t).Ok? then IndexTxs(env, IndexTx(env, s, t).value, []) else IndexTx(env, s, t);
  }

  /** Batch refinement: for a caller who passes the gate, one call on the list gives what one call per
      element gives - the same state, or the same failure. */
  lemma {:induction false} BatchIsOneByOne(env: Env, s: State, sender: Principal, ts: seq<SignedTx>)
    requires !s.paused && sender in s.relayers
    ensures IndexTxMany(env, s, sender, ts) == OneByOne(env, s, sender, ts)
    decreases |ts|
  {
    hide IndexTx;
    if ts != [] {
      SingleCall(env, s, sender, ts[0]);
      var r := IndexTx(env, s, ts[0]);
      if r.Ok? {
        IndexTxExact(env, s, ts[0]);
        BatchIsOneByOne(env, r.value, sender, ts[1..]);
      }
    }
  }

  /** For everyone else a non-empty batch fails like its first element, and any failed batch, wherever it
      fails, leaves the state untouched. */
  lemma BatchIsAtomic(env: Env, s: State, sender: Principal, ts: seq<SignedTx>)
    ensures s.paused || sender !in s.relayers ==> !IndexTxMany(env, s, sender, ts).Ok?
    ensures (exists n :: 0 <= n < |ts| && IndexTxMany(env, s, sender, ts[..n]).Ok?
                         && !IndexTx(env, IndexTxMany(env, s, sender, ts[..n]).value, ts[n]).Ok?)
            ==> After(env, s, Sent(sender, IndexMany(ts))) == s
  {
    hide IndexTx;
    if n :| 0 <= n < |ts| && IndexTxMany(env, s, sender, ts[..n]).Ok?
            && !IndexTx(env, IndexTxMany(env, s, sender, ts[..n]).value, ts[n]).Ok? {
      PrefixFails(env, s, ts, n);
    }
  }

  lemma {:induction false} PrefixFails(env: Env, s: State, ts: seq<SignedTx>, n: nat)
    requires n < |ts| && IndexTxs(env, s, ts[..n]).Ok? && !IndexTx(env, IndexTxs(env, s, ts[..n]).value, ts[n]).Ok?
    ensures !IndexTxs(env, s, ts).Ok?
    decreases n
  {
    hide IndexTx;
    if n == 0 {
      assert ts[..0] == [];
    } else {
      assert ts[..n][0] == ts[0] && ts[..n][1..] == ts[1..][..n - 1];
      PrefixFails(env, IndexTx(env, s, ts[0]).value, ts[1..], n - 1);
    }
  }

  // ---------- governance ----------

  /** validator-count is the number of registered validators in every reachable state. */
  lemma {:induction false} ValidatorCountExact(env: Env, s: State, calls: seq<Sent>)
    requires s.validatorCount == |s.validators|
    ensures Run(env, s, calls).validatorCount == |Run(env, s, calls).validators|
    decreases |calls|
  {
    hide After;
    if calls != [] {
      var c, s' := calls[0], After(env, s, calls[0]);
      CountStep(env, s, c);
      ValidatorCountExact(env, s', calls[1..]);
    }
  }

  lemma CountStep(env: Env, s: State, c: Sent)
    requires s.validatorCount == |s.validators|
    ensures After(env, s, c).validatorCount == |After(env, s, c).validators| <= s.validatorCount + 1
  {
    hide IndexTxs, V1Govern, OwnerStep, Replay, LogAllowed, LedgerOf;
    if Step(env, s, c.sender, c.call).Ok? {
      if c.call.IndexMany? {
        BatchReplays(env, s, c.call.txs);
      } else if !c.call.GovernRegistry? {
        OwnerCount(s, c.call);
      }
    }
  }

  lemma OwnerCount(s: State, call: Call)
    requires !call.IndexMany? && !call.GovernRegistry? && OwnerStep(s, call).Ok? && s.validatorCount == |s.validators|
    ensures OwnerStep(s, call).value.validatorCount == |OwnerStep(s, call).value.validators| <= s.validatorCount + 1
  {
    hide OwnerStep;
    OwnerStepEffect(s, call);
    if call.AddValidator? {
      assert s.validators[call.validator := call.pubkey].Keys == s.validators.Keys + {call.validator};
    } else if call.RemoveValidator? {
      assert (s.validators - {call.validator}).Keys == s.validators.Keys - {call.validator};
    }
  }
}
