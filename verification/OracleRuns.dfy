/** What one successful event does, exactly, and what that gives over every run of the contract. */
module OracleRuns {
  import opened Clarity
  import opened Registry
  import opened Oracle

  // ---------- one event, in closed form ----------

  ghost predicate PackValid(env: Env, validators: map<Principal, Bytes>, txHash: Bytes, pack: SignaturePack) {
    && pack.signer in validators
    && pack.txHash == txHash
    && env.recover(DomainMessage(env, txHash), pack.signature) == Some(validators[pack.signer])
  }

  /** What a validator signs: the hash of "SIP018", the domain of the network and the event hash, in this order. */
  function DomainMessage(env: Env, txHash: Bytes): Bytes {
    env.sha([0x53, 0x49, 0x50, 0x30, 0x31, 0x38] + env.messageDomain + txHash)
  }

  lemma SignedMessageIs(env: Env, txHash: Bytes)
    ensures SignedMessage(env, txHash) == DomainMessage(env, txHash)
  {
    var prefix: Bytes := [0x53, 0x49, 0x50, 0x30, 0x31, 0x38];
    assert prefix + (env.messageDomain + txHash) == prefix + env.messageDomain + txHash;
  }

  ghost predicate DistinctSigners(packs: seq<SignaturePack>) {
    forall i, j :: 0 <= i < j < |packs| ==> packs[i].signer != packs[j].signer
  }

  /** Pairwise distinct registered validators, each signature recovering to its signer's key over `txHash`. */
  ghost predicate AllSigned(env: Env, validators: map<Principal, Bytes>, txHash: Bytes, packs: seq<SignaturePack>) {
    && DistinctSigners(packs)
    && forall i :: 0 <= i < |packs| ==> PackValid(env, validators, txHash, packs[i])
  }

  /** The (hash, validator) pairs a list of packs uses up. */
  function Pairs(txHash: Bytes, packs: seq<SignaturePack>): set<(Bytes, Principal)> {
    set i | 0 <= i < |packs| :: (txHash, packs[i].signer)
  }

  lemma {:induction false} PairsCount(txHash: Bytes, packs: seq<SignaturePack>)
    requires DistinctSigners(packs)
    ensures |Pairs(txHash, packs)| == |packs|
  {
    if packs != [] {
      var init, last := packs[..|packs| - 1], packs[|packs| - 1];
      PairsCount(txHash, init);
      assert Pairs(txHash, packs) == Pairs(txHash, init) + {(txHash, last.signer)};
    }
  }

  lemma PairsCons(txHash: Bytes, packs: seq<SignaturePack>)
    requires packs != []
    ensures Pairs(txHash, packs) == {(txHash, packs[0].signer)} + Pairs(txHash, packs[1..])
    ensures DistinctSplits(packs)
  {
    var rest := packs[1..];
    forall i | 0 <= i < |rest| ensures (txHash, rest[i].signer) in Pairs(txHash, packs) {
      assert rest[i] == packs[i + 1];
    }
    forall i | 0 < i < |packs| ensures (txHash, packs[i].signer) in Pairs(txHash, rest) {
      assert packs[i] == rest[i - 1];
    }
  }

  ghost predicate DistinctSplits(packs: seq<SignaturePack>)
    requires packs != []
  {
    DistinctSigners(packs) <==>
      DistinctSigners(packs[1..]) && forall i :: 0 < i < |packs| ==> packs[0].signer != packs[i].signer
  }

  /** The signature fold, both ways: it succeeds exactly when all packs are signed and none of the pairs
      was used before, and then it records exactly those pairs. */
  lemma {:induction false} SignaturesExact(env: Env, s: State, packs: seq<SignaturePack>)
    ensures var h := s.txHashToIter; var r := ValidateSignatures(env, s, packs);
      && (r.Ok? <==> AllSigned(env, s.validators, h, packs) && Pairs(h, packs) !! s.validatedBy)
      && (r.Ok? ==> r.value == s.(validatedBy := s.validatedBy + Pairs(h, packs)))
    decreases |packs|
  {
    var h := s.txHashToIter;
    if packs == [] {
      assert Pairs(h, packs) == {};
      assert s.validatedBy + {} == s.validatedBy;
    } else {
      var p, rest := packs[0], packs[1..];
      var s' := s.(validatedBy := s.validatedBy + {(h, p.signer)});
      PairsCons(h, packs);
      SignaturesExact(env, s', rest);
      SignaturesStep(env, s, packs);
      SignedMessageIs(env, h);
      assert s'.validatedBy + Pairs(h, rest) == s.validatedBy + Pairs(h, packs);
    }
  }

  /** Splitting the condition at the first pack. */
  lemma SignaturesStep(env: Env, s: State, packs: seq<SignaturePack>)
    requires packs != []
    ensures var h, p, rest := s.txHashToIter, packs[0], packs[1..];
      (AllSigned(env, s.validators, h, packs) && Pairs(h, packs) !! s.validatedBy)
      <==> (&& PackValid(env, s.validators, h, p) && (h, p.signer) !in s.validatedBy
            && AllSigned(env, s.validators, h, rest)
            && Pairs(h, rest) !! s.validatedBy + {(h, p.signer)})
  {
    var h, p, rest := s.txHashToIter, packs[0], packs[1..];
    PairsCons(h, packs);
    assert (forall i :: 0 <= i < |packs| ==> PackValid(env, s.validators, h, packs[i]))
      <==> PackValid(env, s.validators, h, p)
           && forall i :: 0 <= i < |rest| ==> PackValid(env, s.validators, h, rest[i]) by {
      assert forall i :: 0 <= i < |rest| ==> rest[i] == packs[i + 1];
      assert forall i :: 0 < i < |packs| ==> packs[i] == rest[i - 1];
    }
    assert (h, p.signer) !in Pairs(h, rest) <==> forall i :: 0 < i < |packs| ==> p.signer != packs[i].signer by {
      assert forall i :: 0 <= i < |rest| ==> rest[i] == packs[i + 1];
      if (h, p.signer) !in Pairs(h, rest) {
        forall i | 0 < i < |packs| ensures p.signer != packs[i].signer {
          assert (h, rest[i - 1].signer) in Pairs(h, rest);
        }
      }
    }
  }

  /** Newer than what either user had before the event; when both are the same user the receiver's wins. */
  function ApplyBalance(m: map<BalanceKey, Balance>, t: SignedTx): map<BalanceKey, Balance> {
    var fromKey, toKey, h := BalanceKey(t.tx.from, t.tx.tick), BalanceKey(t.tx.to, t.tx.tick), t.block.height;
    var m1 := if h > BalanceOrDefault(m, fromKey).upToBlock then m[fromKey := Balance(t.tx.fromBal, h)] else m;
    if h > BalanceOrDefault(m, toKey).upToBlock then m1[toKey := Balance(t.tx.toBal, h)] else m1
  }

  function ApplyMined(m: map<Bytes, nat>, t: SignedTx): map<Bytes, nat> {
    if t.tx.bitcoinTx in m then m else m[t.tx.bitcoinTx := t.block.height]
  }

  function ApplyIndexed(m: map<IndexKey, Transfer>, t: SignedTx): map<IndexKey, Transfer> {
    var e := t.tx;
    m[IndexKey(e.bitcoinTx, e.output, e.offset) := Transfer(e.tick, e.amt, e.from, e.to)]
  }

  ghost predicate CanIndex(env: Env, s: State, t: SignedTx) {
    var h := env.hashTx(t.tx);
    && |t.packs| >= s.required
    && (t.tx.bitcoinTx in s.registry.mined || env.verifyMined(t.tx.bitcoinTx, t.block, t.proof).Ok?)
    && AllSigned(env, s.validators, h, t.packs)
    && Pairs(h, t.packs) !! s.validatedBy
    && MayWrite(s.registry, env.self)
  }

  function Indexed(env: Env, s: State, t: SignedTx): State {
    var h, r := env.hashTx(t.tx), s.registry;
    s.(validatedBy := s.validatedBy + Pairs(h, t.packs), txHashToIter := h,
       registry := r.(mined := ApplyMined(r.mined, t), indexed := ApplyIndexed(r.indexed, t),
                      balances := ApplyBalance(r.balances, t), decimals := r.decimals[t.tx.tick := t.tx.decimals]))
  }

  lemma RegistryWriteExact(env: Env, s: State, w: Write)
    ensures RegistryWrite(env, s, w).Ok? <==> MayWrite(s.registry, env.self)
    ensures RegistryWrite(env, s, w).Ok? ==> RegistryWrite(env, s, w).value == s.(registry := V1Apply(s.registry, w))
    ensures MayWrite(V1Apply(s.registry, w), env.self) == MayWrite(s.registry, env.self)
  {
  }

  lemma {:induction false} WriteEventExact(env: Env, s: State, t: SignedTx, fromBal: Balance, toBal: Balance)
    requires fromBal == BalanceOrDefault(s.registry.balances, BalanceKey(t.tx.from, t.tx.tick))
    requires toBal == BalanceOrDefault(s.registry.balances, BalanceKey(t.tx.to, t.tx.tick))
    ensures var w, r := WriteEvent(env, s, t, fromBal, toBal), s.registry;
      && (w.Ok? <==> MayWrite(r, env.self))
      && (w.Ok? ==> w.value == s.(registry :=
            r.(indexed := ApplyIndexed(r.indexed, t), balances := ApplyBalance(r.balances, t),
               decimals := r.decimals[t.tx.tick := t.tx.decimals])))
  {
    hide RegistryWrite, MayWrite;
    var w1 := SetTxIndexed(KeyOf(t.tx), TransferOf(t.tx));
    RegistryWriteExact(env, s, w1);
    var s1 := s.(registry := V1Apply(s.registry, w1));
    var w2 := SetUserBalance(BalanceKey(t.tx.from, t.tx.tick), Balance(t.tx.fromBal, t.block.height));
    RegistryWriteExact(env, s1, w2);
    var s2 := if t.block.height > fromBal.upToBlock then s1.(registry := V1Apply(s1.registry, w2)) else s1;
    var w3 := SetUserBalance(BalanceKey(t.tx.to, t.tx.tick), Balance(t.tx.toBal, t.block.height));
    RegistryWriteExact(env, s2, w3);
    var s3 := if t.block.height > toBal.upToBlock then s2.(registry := V1Apply(s2.registry, w3)) else s2;
    RegistryWriteExact(env, s3, SetTickDecimals(t.tx.tick, t.tx.decimals));
  }

  lemma RecordMinedExact(env: Env, s: State, t: SignedTx)
    ensures var r, mined := RecordMined(env, s, t), t.tx.bitcoinTx in s.registry.mined;
      && (r.Ok? <==> mined || (&& env.verifyMined(t.tx.bitcoinTx, t.block, t.proof).Ok?
                               && MayWrite(s.registry, env.self)))
      && (r.Ok? ==> r.value == s.(registry := s.registry.(mined := ApplyMined(s.registry.mined, t))))
  {
  }

  /** index-tx-iter, both ways: exactly when it succeeds, and exactly what it then changes. */
  lemma {:induction false} IndexTxExact(env: Env, s: State, t: SignedTx)
    ensures IndexTx(env, s, t).Ok? <==> CanIndex(env, s, t)
    ensures IndexTx(env, s, t).Ok? ==> IndexTx(env, s, t).value == Indexed(env, s, t)
  {
    hide ValidateSignatures, WriteEvent, AllSigned, Pairs, ApplyBalance, ApplyMined, BalanceOrDefault, RecordMined;
    var fromBal := BalanceOrDefault(s.registry.balances, BalanceKey(t.tx.from, t.tx.tick));
    var toBal := BalanceOrDefault(s.registry.balances, BalanceKey(t.tx.to, t.tx.tick));
    var h := env.hashTx(t.tx);
    RecordMinedExact(env, s, t);
    if |t.packs| >= s.required && RecordMined(env, s, t).Ok? {
      var s1 := RecordMined(env, s, t).value.(txHashToIter := h);
      SignaturesExact(env, s1, t.packs);
      var r := ValidateSignatures(env, s1, t.packs);
      if r.Ok? {
        WriteEventExact(env, r.value, t, fromBal, toBal);
      }
    }
  }

  // ---------- the log of a run ----------

  /** A successful event with the validator set and the requirement that held when it was indexed. */
  datatype Commit = Commit(signed: SignedTx, validators: map<Principal, Bytes>, required: nat)

  ghost predicate QuorumMet(env: Env, c: Commit) {
    |c.signed.packs| >= c.required && AllSigned(env, c.validators, env.hashTx(c.signed.tx), c.signed.packs)
  }

  function CommitAll(s: State, ts: seq<SignedTx>): seq<Commit> {
    seq(|ts|, i requires 0 <= i < |ts| => Commit(ts[i], s.validators, s.required))
  }

  function CallLog(env: Env, s: State, c: Sent): seq<Commit> {
    if c.call.IndexMany? && Step(env, s, c.sender, c.call).Ok? then CommitAll(s, c.call.txs) else []
  }

  /** Every event that was successfully indexed in a run, in order. */
  function Log(env: Env, s: State, calls: seq<Sent>): seq<Commit>
    decreases |calls|
  {
    if calls == [] then [] else CallLog(env, s, calls[0]) + Log(env, After(env, s, calls[0]), calls[1..])
  }

  function ApplyPairs(env: Env, used: set<(Bytes, Principal)>, t: SignedTx): set<(Bytes, Principal)> {
    used + Pairs(env.hashTx(t.tx), t.packs)
  }

  /** The ledger: the part of the state that events write. */
  datatype Ledger = Ledger(used: set<(Bytes, Principal)>, mined: map<Bytes, nat>, indexed: map<IndexKey, Transfer>,
                           balances: map<BalanceKey, Balance>)

  function LedgerOf(s: State): Ledger {
    Ledger(s.validatedBy, s.registry.mined, s.registry.indexed, s.registry.balances)
  }

  function ApplyEvent(env: Env, l: Ledger, t: SignedTx): Ledger {
    Ledger(ApplyPairs(env, l.used, t), ApplyMined(l.mined, t), ApplyIndexed(l.indexed, t), ApplyBalance(l.balances, t))
  }

  function Replay(env: Env, l: Ledger, log: seq<Commit>): Ledger
    decreases |log|
  {
    if log == [] then l else Replay(env, ApplyEvent(env, l, log[0].signed), log[1..])
  }

  /** A commit that was allowed on ledger `l`: quorum met, its pairs unused, its transaction mined. */
  ghost predicate CommitAllowed(env: Env, l: Ledger, c: Commit) {
    && QuorumMet(env, c)
    && Pairs(env.hashTx(c.signed.tx), c.signed.packs) !! l.used
    && (c.signed.tx.bitcoinTx in l.mined || env.verifyMined(c.signed.tx.bitcoinTx, c.signed.block, c.signed.proof).Ok?)
  }

  /** Each commit of the log was allowed on the ledger it found. */
  ghost predicate LogAllowed(env: Env, l: Ledger, log: seq<Commit>)
    decreases |log|
  {
    log != [] ==> CommitAllowed(env, l, log[0]) && LogAllowed(env, ApplyEvent(env, l, log[0].signed), log[1..])
  }

  lemma {:induction false} LogSplit(env: Env, l: Ledger, a: seq<Commit>, b: seq<Commit>)
    ensures Replay(env, l, a + b) == Replay(env, Replay(env, l, a), b)
    ensures LogAllowed(env, l, a + b) <==> LogAllowed(env, l, a) && LogAllowed(env, Replay(env, l, a), b)
    decreases |a|
  {
    if a == [] {
      assert [] + b == b;
    } else {
      assert (a + b)[1..] == a[1..] + b;
      LogSplit(env, ApplyEvent(env, l, a[0].signed), a[1..], b);
    }
  }

  lemma {:induction false} BatchReplays(env: Env, s: State, ts: seq<SignedTx>)
    requires IndexTxs(env, s, ts).Ok?
    ensures var s' := IndexTxs(env, s, ts).value;
      && LedgerOf(s') == Replay(env, LedgerOf(s), CommitAll(s, ts))
      && LogAllowed(env, LedgerOf(s), CommitAll(s, ts))
      && s'.validators == s.validators && s'.required == s.required
      && s'.paused == s.paused && s'.relayers == s.relayers && s'.validatorCount == s.validatorCount
    decreases |ts|
  {
    hide IndexTx, AllSigned, Pairs, ApplyBalance, ApplyMined;
    if ts != [] {
      IndexTxExact(env, s, ts[0]);
      var s1 := IndexTx(env, s, ts[0]).value;
      BatchReplays(env, s1, ts[1..]);
      assert CommitAll(s, ts)[1..] == CommitAll(s1, ts[1..]);
    }
  }

  lemma OwnerStepEffect(s: State, call: Call)
    requires !call.IndexMany? && !call.GovernRegistry? && OwnerStep(s, call).Ok?
    ensures var s' := OwnerStep(s, call).value; s'.validatedBy == s.validatedBy && s'.registry == s.registry
    ensures var s' := OwnerStep(s, call).value;
      match call
      case AddValidator(pubkey, v) =>
        v !in s.validators && s'.validators == s.validators[v := pubkey] && s'.validatorCount == s.validatorCount + 1
      case RemoveValidator(v) =>
        v in s.validators && s'.validators == s.validators - {v} && s'.validatorCount == s.validatorCount - 1
      case _ => s'.validators == s.validators && s'.validatorCount == s.validatorCount
  {
    match call
    case OracleSetPaused(_) =>
    case AddValidator(_, _) =>
    case RemoveValidator(_) =>
    case ApproveRelayer(_, _) =>
    case SetRequiredValidators(_) =>
    case OracleSetOwner(_) =>
  }

  lemma GovernanceKeepsLedger(env: Env, s: State, c: Sent)
    requires !c.call.IndexMany? && Step(env, s, c.sender, c.call).Ok?
    ensures LedgerOf(Step(env, s, c.sender, c.call).value) == LedgerOf(s)
  {
    hide OwnerStep, V1Govern;
    if c.call.GovernRegistry? {
      V1GovernExact(s.registry, c.sender, c.call.g);
    } else {
      OwnerStepEffect(s, c.call);
    }
  }

  lemma {:induction false} CallReplays(env: Env, s: State, c: Sent)
    ensures LedgerOf(After(env, s, c)) == Replay(env, LedgerOf(s), CallLog(env, s, c))
    ensures LogAllowed(env, LedgerOf(s), CallLog(env, s, c))
  {
    hide IndexTxs, Replay, LogAllowed, OwnerStep, V1Govern, LedgerOf;
    EmptyLog(env, LedgerOf(s));
    if Step(env, s, c.sender, c.call).Ok? {
      if c.call.IndexMany? {
        BatchReplays(env, s, c.call.txs);
      } else {
        GovernanceKeepsLedger(env, s, c);
      }
    }
  }

  lemma EmptyLog(env: Env, l: Ledger)
    ensures Replay(env, l, []) == l && LogAllowed(env, l, [])
  {
  }

  /** Event sourcing: after any run, from any state, the ledger is the replay of the log of its successful
      events, and each of those was allowed on the ledger it met. */
  lemma {:induction false} RunReplays(env: Env, s: State, calls: seq<Sent>)
    ensures LedgerOf(Run(env, s, calls)) == Replay(env, LedgerOf(s), Log(env, s, calls))
    ensures LogAllowed(env, LedgerOf(s), Log(env, s, calls))
    decreases |calls|
  {
    hide After, CallLog, LedgerOf, Replay, LogAllowed;
    if calls == [] {
      EmptyLog(env, LedgerOf(s));
    } else {
      var s' := After(env, s, calls[0]);
      CallReplays(env, s, calls[0]);
      RunReplays(env, s', calls[1..]);
      LogSplit(env, LedgerOf(s), CallLog(env, s, calls[0]), Log(env, s', calls[1..]));
    }
  }
}
