/** The oracle's settings, read off the calls of a run: what each owner call stores, who may make it, and the
    quorum guarantee in terms of the calls alone. */
module OracleSettings {
  import opened Clarity
  import opened Registry
  import opened Oracle
  import opened OracleRuns
  import opened OracleTheorems

  // ---------- the answers to single calls ----------

  /** The answer to every owner call, in the order of the contract's checks. */
  lemma OwnerAnswers(env: Env, s: State, sender: Principal, call: Call)
    requires !call.IndexMany? && !call.GovernRegistry?
    ensures sender != s.owner ==> Step(env, s, sender, call) == Err(1000)
    ensures sender == s.owner ==>
      match call
      case AddValidator(_, v) =>
        && (v in s.validators ==> Step(env, s, sender, call) == Err(1005))
        && (v !in s.validators && s.validatorCount >= MAX_UINT ==> Step(env, s, sender, call) == Abort)
        && (v !in s.validators && s.validatorCount < MAX_UINT ==> Step(env, s, sender, call).Ok?)
      case RemoveValidator(v) =>
        && (v !in s.validators ==> Step(env, s, sender, call) == Err(1001))
        && (v in s.validators && s.validatorCount == 0 ==> Step(env, s, sender, call) == Abort)
        && (v in s.validators && s.validatorCount > 0 ==> Step(env, s, sender, call).Ok?)
      case SetRequiredValidators(k) =>
        if k < 10 then Step(env, s, sender, call).Ok? else Step(env, s, sender, call) == Err(1004)
      case _ => Step(env, s, sender, call).Ok?
  {
    match call
    case OracleSetPaused(_) =>
    case AddValidator(_, _) =>
    case RemoveValidator(_) =>
    case ApproveRelayer(_, _) =>
    case SetRequiredValidators(_) =>
    case OracleSetOwner(_) =>
  }

  /** The registry is governed by its own owner, and that touches nothing of the oracle. */
  lemma RegistryAnswers(env: Env, s: State, sender: Principal, g: Governance)
    ensures sender != s.registry.owner ==> Step(env, s, sender, GovernRegistry(g)) == Err(1000)
    ensures sender == s.registry.owner ==>
      Step(env, s, sender, GovernRegistry(g)) ==
        Ok(s.(registry := match g
                          case SetPaused(paused) => s.registry.(paused := paused)
                          case ApproveOperator(o, a) => s.registry.(operators := s.registry.operators[o := a])
                          case SetContractOwner(owner) => s.registry.(owner := owner)))
  {
    V1GovernExact(s.registry, sender, g);
  }

  /** A batch is refused before any of its events is looked at, with this code. */
  lemma BatchRefused(env: Env, s: State, sender: Principal, ts: seq<SignedTx>)
    ensures s.paused ==> Step(env, s, sender, IndexMany(ts)) == Err(1002)
    ensures !s.paused && sender !in s.relayers ==> Step(env, s, sender, IndexMany(ts)) == Err(1003)
  {
    hide IndexTxs;
  }

  // ---------- the signature fold: which code, and why ----------

  /** Pack `k` of the list is at fault, given the pairs used before the list: unknown signer, a pair used before or
      by an earlier pack, another hash, or a signature that does not recover to the signer's key. */
  ghost predicate PackFails(env: Env, s: State, packs: seq<SignaturePack>, k: nat, code: nat)
    requires k < |packs|
  {
    var h, p := s.txHashToIter, packs[k];
    if p.signer !in s.validators then code == 1001
    else if (h, p.signer) in s.validatedBy || (exists j :: 0 <= j < k && packs[j].signer == p.signer) then code == 1006
    else if p.txHash != h then code == 1007
    else env.recover(DomainMessage(env, h), p.signature) != Some(s.validators[p.signer]) && code == 1008
  }

  lemma {:induction false} FirstFault(env: Env, s: State, packs: seq<SignaturePack>) returns (k: nat)
    requires !ValidateSignatures(env, s, packs).Ok?
    ensures k < |packs| && ValidateSignatures(env, s, packs).Err?
    ensures PackFails(env, s, packs, k, ValidateSignatures(env, s, packs).code)
    ensures ValidateSignatures(env, s, packs[..k]).Ok?
    decreases |packs|
  {
    hide DomainMessage, SignedMessage;
    SignedMessageIs(env, s.txHashToIter);
    var h, p, rest := s.txHashToIter, packs[0], packs[1..];
    if !ValidateTx(env, s, h, p).Ok? {
      k := 0;
      assert packs[..0] == [];
    } else {
      var s' := s.(validatedBy := s.validatedBy + {(h, p.signer)});
      var m := FirstFault(env, s', rest);
      k := m + 1;
      assert packs[..k][0] == p && packs[..k][1..] == rest[..m];
      FaultShifts(env, s, s', packs, m, ValidateSignatures(env, s, packs).code);
    }
  }

  lemma FaultShifts(env: Env, s: State, s': State, packs: seq<SignaturePack>, m: nat, code: nat)
    requires m + 1 < |packs| && s' == s.(validatedBy := s.validatedBy + {(s.txHashToIter, packs[0].signer)})
    requires PackFails(env, s', packs[1..], m, code)
    ensures PackFails(env, s, packs, m + 1, code)
  {
    hide DomainMessage;
    var rest, signer := packs[1..], packs[m + 1].signer;
    assert rest[m] == packs[m + 1];
    if j :| 0 <= j < m && rest[j].signer == signer {
      assert packs[j + 1].signer == signer;
    }
    if j :| 0 <= j < m + 1 && packs[j].signer == signer {
      if j > 0 {
        assert rest[j - 1].signer == signer;
      }
    }
  }

  // ---------- one event: which code ----------

  /** The answer to an event that is not indexed, in the order of the contract's checks. */
  lemma {:induction false} EventRefused(env: Env, s: State, t: SignedTx)
    ensures |t.packs| < s.required ==> IndexTx(env, s, t) == Err(1004)
    ensures |t.packs| >= s.required && t.tx.bitcoinTx !in s.registry.mined ==>
      var mined := env.verifyMined(t.tx.bitcoinTx, t.block, t.proof);
      && (mined.Err? ==> IndexTx(env, s, t) == Err(mined.code))
      && (mined.Abort? ==> IndexTx(env, s, t) == Abort)
      && (mined.Ok? && !MayWrite(s.registry, env.self) ==> IndexTx(env, s, t) == Err(Denied(s.registry, env.self)))
    ensures |t.packs| >= s.required && RecordMined(env, s, t).Ok? ==>
      var signed := ValidateSignatures(env, RecordMined(env, s, t).value.(txHashToIter := env.hashTx(t.tx)), t.packs);
      && (signed.Err? ==> IndexTx(env, s, t) == Err(signed.code))
      && (signed.Ok? && !MayWrite(s.registry, env.self) ==> IndexTx(env, s, t) == Err(Denied(s.registry, env.self)))
  {
    hide ValidateSignatures, WriteEvent;
    V1WriteExact(s.registry, env.self, SetTxMined(t.tx.bitcoinTx, t.block.height));
    RecordMinedExact(env, s, t);
    if |t.packs| >= s.required && RecordMined(env, s, t).Ok? {
      var s1 := RecordMined(env, s, t).value.(txHashToIter := env.hashTx(t.tx));
      SignaturesExact(env, s1, t.packs);
      if ValidateSignatures(env, s1, t.packs).Ok? {
        WriteRefused(env, ValidateSignatures(env, s1, t.packs).value, t,
                     BalanceOrDefault(s.registry.balances, BalanceKey(t.tx.from, t.tx.tick)),
                     BalanceOrDefault(s.registry.balances, BalanceKey(t.tx.to, t.tx.tick)));
      }
    }
  }

  /** The registry's answer to a sender who may not write. */
  function Denied(r: V1, sender: Principal): nat {
    if sender != r.owner && !(sender in r.operators && r.operators[sender]) then 1000 else 1001
  }

  lemma WriteRefused(env: Env, s: State, t: SignedTx, fromBal: Balance, toBal: Balance)
    ensures !MayWrite(s.registry, env.self) ==>
      WriteEvent(env, s, t, fromBal, toBal) == Err(Denied(s.registry, env.self))
  {
    hide V1Write;
    V1WriteExact(s.registry, env.self, SetTxIndexed(KeyOf(t.tx), TransferOf(t.tx)));
  }

  // ---------- settings over runs ----------

  /** The owner after the calls: named by the last call of the then-owner that set one. */
  function OwnerAfter(s: State, calls: seq<Sent>): Principal {
    if calls == [] then s.owner
    else
      var init, c := calls[..|calls| - 1], calls[|calls| - 1];
      if c.call.OracleSetOwner? && c.sender == OwnerAfter(s, init) then c.call.owner else OwnerAfter(s, init)
  }

  /** The requirement: the argument of the then-owner's last set-required-validators below 10. */
  function RequiredAfter(s: State, calls: seq<Sent>): nat {
    if calls == [] then s.required
    else
      var init, c := calls[..|calls| - 1], calls[|calls| - 1];
      if c.call.SetRequiredValidators? && c.call.required < 10 && c.sender == OwnerAfter(s, init)
      then c.call.required else RequiredAfter(s, init)
  }

  function PausedAfter(s: State, calls: seq<Sent>): bool {
    if calls == [] then s.paused
    else
      var init, c := calls[..|calls| - 1], calls[|calls| - 1];
      if c.call.OracleSetPaused? && c.sender == OwnerAfter(s, init) then c.call.paused else PausedAfter(s, init)
  }

  function RelayersAfter(s: State, calls: seq<Sent>): map<Principal, bool> {
    if calls == [] then s.relayers
    else
      var init, c := calls[..|calls| - 1], calls[|calls| - 1];
      if c.call.ApproveRelayer? && c.sender == OwnerAfter(s, init)
      then RelayersAfter(s, init)[c.call.relayer := c.call.approved] else RelayersAfter(s, init)
  }

  function ValidatorsAfter(s: State, calls: seq<Sent>): map<Principal, Bytes> {
    if calls == [] then s.validators
    else
      var init, c := calls[..|calls| - 1], calls[|calls| - 1];
      var now := ValidatorsAfter(s, init);
      if c.sender != OwnerAfter(s, init) then now
      else if c.call.AddValidator? && c.call.validator !in now && |now| < MAX_UINT
      then now[c.call.validator := c.call.pubkey]
      else if c.call.RemoveValidator? then now - {c.call.validator}
      else now
  }

  /** One call: each setting changes only by the owner's call for it, and then to the call's argument. */
  lemma {:induction false} StepSettings(env: Env, s: State, c: Sent)
    requires s.validatorCount == |s.validators|
    ensures var s', owner := After(env, s, c), c.sender == s.owner;
      && s'.owner == (if owner && c.call.OracleSetOwner? then c.call.owner else s.owner)
      && s'.paused == (if owner && c.call.OracleSetPaused? then c.call.paused else s.paused)
      && s'.relayers == (if owner && c.call.ApproveRelayer? then s.relayers[c.call.relayer := c.call.approved]
                         else s.relayers)
      && s'.required == (if owner && c.call.SetRequiredValidators? && c.call.required < 10 then c.call.required
                         else s.required)
      && s'.validators == (if && owner && c.call.AddValidator?
                              && c.call.validator !in s.validators && |s.validators| < MAX_UINT
                           then s.validators[c.call.validator := c.call.pubkey]
                           else if owner && c.call.RemoveValidator? then s.validators - {c.call.validator}
                           else s.validators)
      && s'.validatorCount == |s'.validators|
  {
    hide IndexTxs, V1Govern, OwnerStep;
    CountStep(env, s, c);
    if c.call.IndexMany? {
      if Step(env, s, c.sender, c.call).Ok? {
        BatchKeepsSettings(env, s, c.call.txs);
      }
    } else if !c.call.GovernRegistry? {
      OwnerSettings(s, c.call);
    }
  }

  lemma {:induction false} BatchKeepsSettings(env: Env, s: State, ts: seq<SignedTx>)
    requires IndexTxs(env, s, ts).Ok?
    ensures var s' := IndexTxs(env, s, ts).value;
      && s'.owner == s.owner && s'.paused == s.paused && s'.relayers == s.relayers
      && s'.required == s.required && s'.validators == s.validators
    decreases |ts|
  {
    hide IndexTx, CanIndex;
    if ts != [] {
      IndexTxExact(env, s, ts[0]);
      BatchKeepsSettings(env, IndexTx(env, s, ts[0]).value, ts[1..]);
    }
  }

  lemma OwnerSettings(s: State, call: Call)
    requires !call.IndexMany? && !call.GovernRegistry? && s.validatorCount == |s.validators|
    ensures var r := OwnerStep(s, call);
      && (r.Ok? <==> match call
                     case AddValidator(_, v) => v !in s.validators && |s.validators| < MAX_UINT
                     case RemoveValidator(v) => v in s.validators
                     case SetRequiredValidators(k) => k < 10
                     case _ => true)
      && (r.Ok? ==>
            && r.value.owner == (if call.OracleSetOwner? then call.owner else s.owner)
            && r.value.paused == (if call.OracleSetPaused? then call.paused else s.paused)
            && r.value.relayers == (if call.ApproveRelayer? then s.relayers[call.relayer := call.approved]
                                    else s.relayers)
            && r.value.required == (if call.SetRequiredValidators? then call.required else s.required)
            && r.value.validators == (if call.AddValidator? then s.validators[call.validator := call.pubkey]
                                      else if call.RemoveValidator? then s.validators - {call.validator}
                                      else s.validators))
    ensures call.RemoveValidator? && call.validator !in s.validators ==>
      s.validators - {call.validator} == s.validators
  {
    match call
    case OracleSetPaused(_) =>
    case AddValidator(_, _) =>
    case RemoveValidator(v) =>
      if v in s.validators {
        assert |s.validators| > 0 by { assert v in s.validators.Keys; }
      }
    case ApproveRelayer(_, _) =>
    case SetRequiredValidators(_) =>
    case OracleSetOwner(_) =>
  }

  lemma {:induction false} RunSnoc(env: Env, s: State, calls: seq<Sent>, c: Sent)
    ensures Run(env, s, calls + [c]) == After(env, Run(env, s, calls), c)
    decreases |calls|
  {
    hide After;
    if calls == [] {
      assert [] + [c] == [c] && [c][1..] == [];
      assert Run(env, s, [c]) == Run(env, After(env, s, c), []);
    } else {
      assert (calls + [c])[0] == calls[0] && (calls + [c])[1..] == calls[1..] + [c];
      RunSnoc(env, After(env, s, calls[0]), calls[1..], c);
    }
  }

  /** After any run every setting is what the calls say, and the counter is the number of validators. */
  lemma {:induction false} SettingsFromCalls(env: Env, s: State, calls: seq<Sent>)
    requires s.validatorCount == |s.validators|
    ensures var s' := Run(env, s, calls);
      && s'.owner == OwnerAfter(s, calls) && s'.paused == PausedAfter(s, calls)
      && s'.relayers == RelayersAfter(s, calls) && s'.required == RequiredAfter(s, calls)
      && s'.validators == ValidatorsAfter(s, calls) && s'.validatorCount == |s'.validators|
    decreases |calls|
  {
    hide After, Run;
    if calls == [] {
      assert Run(env, s, []) == s by { NoCalls(env, s); }
    } else {
      var init, c := calls[..|calls| - 1], calls[|calls| - 1];
      SettingsFromCalls(env, s, init);
      assert calls == init + [c];
      RunSnoc(env, s, init, c);
      StepSettings(env, Run(env, s, init), c);
    }
  }

  lemma NoCalls(env: Env, s: State)
    ensures Run(env, s, []) == s
  {
  }

  /** Quorum safety from the calls alone: an entry of the index was written by a call whose sender had been approved
      as a relayer, while the contract was not paused, for exactly that event, with at least as many packs as the
      then-owner's last requirement, from pairwise distinct validators that the owner had added and not removed, each
      signing the domain-prefixed hash of that event with the key it was added with. */
  lemma {:induction false} QuorumFromCalls(env: Env, s: State, calls: seq<Sent>, key: IndexKey)
    returns (n: nat, t: SignedTx)
    requires s.validatorCount == |s.validators| && s.registry.indexed == map[]
    requires key in Run(env, s, calls).registry.indexed
    ensures n < |calls| && calls[n].call.IndexMany? && t in calls[n].call.txs
    ensures key == IndexKey(t.tx.bitcoinTx, t.tx.output, t.tx.offset)
    ensures Run(env, s, calls).registry.indexed[key] == Transfer(t.tx.tick, t.tx.amt, t.tx.from, t.tx.to)
    ensures var before := calls[..n];
      && !PausedAfter(s, before) && calls[n].sender in RelayersAfter(s, before)
      && |t.packs| >= RequiredAfter(s, before)
      && (forall i, j :: 0 <= i < j < |t.packs| ==> t.packs[i].signer != t.packs[j].signer)
      && (forall i :: 0 <= i < |t.packs| ==> SignedBy(env, ValidatorsAfter(s, before), t, t.packs[i]))
  {
    hide Run, Log, OwnerAfter, PausedAfter, RelayersAfter, RequiredAfter, ValidatorsAfter, Step, PackValid;
    var i, m := QuorumSafety(env, s, calls, key);
    var c := Log(env, s, calls)[i];
    n := m;
    t := c.signed;
    SettingsFromCalls(env, s, calls[..n]);
    AcceptedByRelayer(env, Run(env, s, calls[..n]), calls[n]);
    forall k | 0 <= k < |t.packs| ensures SignedBy(env, ValidatorsAfter(s, calls[..n]), t, t.packs[k]) {
      assert PackValid(env, ValidatorsAfter(s, calls[..n]), env.hashTx(t.tx), t.packs[k]);
      SignedByIs(env, ValidatorsAfter(s, calls[..n]), t, t.packs[k]);
    }
  }

  ghost predicate SignedBy(env: Env, validators: map<Principal, Bytes>, t: SignedTx, p: SignaturePack) {
    && p.signer in validators && p.txHash == env.hashTx(t.tx)
    && env.recover(env.sha([0x53, 0x49, 0x50, 0x30, 0x31, 0x38] + env.messageDomain + env.hashTx(t.tx)), p.signature)
       == Some(validators[p.signer])
  }

  lemma SignedByIs(env: Env, validators: map<Principal, Bytes>, t: SignedTx, p: SignaturePack)
    ensures SignedBy(env, validators, t, p) <==> PackValid(env, validators, env.hashTx(t.tx), p)
  {
  }

  lemma AcceptedByRelayer(env: Env, s: State, c: Sent)
    requires c.call.IndexMany? && Step(env, s, c.sender, c.call).Ok?
    ensures !s.paused && c.sender in s.relayers
  {
    BatchRefused(env, s, c.sender, c.call.txs);
  }

  /** A freshly deployed oracle indexes nothing until its owner has unpaused it and approved a relayer, and
      requires more signatures than any event can carry until its owner says otherwise. */
  lemma {:induction false} NothingBeforeSetup(env: Env, deployer: Principal, registry: V1, calls: seq<Sent>)
    requires forall n :: 0 <= n < |calls| ==> calls[n].sender != deployer || calls[n].call.IndexMany?
    ensures var s := Run(env, Deployed(deployer, registry), calls);
      && s.owner == deployer && s.paused && s.relayers == map[] && s.validators == map[]
      && s.required == 340282366920938463463374607431768211455
      && Log(env, Deployed(deployer, registry), calls) == []
    decreases |calls|
  {
    hide Run, After, Step;
    var s := Deployed(deployer, registry);
    UntouchedSettings(s, calls);
    SettingsFromCalls(env, s, calls);
    if Log(env, s, calls) != [] {
      var n := LogOrigin(env, s, calls, 0);
      UntouchedSettings(s, calls[..n]);
      SettingsFromCalls(env, s, calls[..n]);
      BatchRefused(env, Run(env, s, calls[..n]), calls[n].sender, calls[n].call.txs);
    }
  }

  lemma {:induction false} UntouchedSettings(s: State, calls: seq<Sent>)
    requires forall n :: 0 <= n < |calls| ==> calls[n].sender != s.owner || calls[n].call.IndexMany?
    ensures OwnerAfter(s, calls) == s.owner && PausedAfter(s, calls) == s.paused
    ensures RelayersAfter(s, calls) == s.relayers && ValidatorsAfter(s, calls) == s.validators
    ensures RequiredAfter(s, calls) == s.required
    decreases |calls|
  {
    if calls != [] {
      UntouchedSettings(s, calls[..|calls| - 1]);
    }
  }
}
