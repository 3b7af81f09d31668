/** The oracle contract over registry v1-01. A public call is a function on a snapshot that yields the new
    snapshot, or an error (or panic) on which the chain discards every change the call made. */
module Oracle {
  import opened Clarity
  import opened Registry
  import Merkle
  import Mined

  const ERR_UNKNOWN_VALIDATOR: nat := 1001
  const ERR_ORACLE_PAUSED: nat := 1002
  const ERR_UNKNOWN_RELAYER: nat := 1003
  const ERR_REQUIRED_VALIDATORS: nat := 1004
  const ERR_VALIDATOR_ALREADY_REGISTERED: nat := 1005
  const ERR_DUPLICATE_SIGNATURE: nat := 1006
  const ERR_ORDER_HASH_MISMATCH: nat := 1007
  const ERR_INVALID_SIGNATURE: nat := 1008
  const MAX_REQUIRED_VALIDATORS: nat := 10

  /** The bytes "SIP018". */
  const STRUCTURED_DATA_PREFIX: Bytes := [0x53, 0x49, 0x50, 0x30, 0x31, 0x38]

  datatype Event = Event(bitcoinTx: Bytes, output: nat, offset: nat, tick: Tick, amt: nat, from: Bytes, to: Bytes,
                         fromBal: nat, toBal: nat, decimals: nat)
  datatype SignaturePack = SignaturePack(signer: Principal, txHash: Bytes, signature: Bytes)
  datatype SignedTx = SignedTx(tx: Event, block: Mined.Block, proof: Merkle.Proof, packs: seq<SignaturePack>)

  /** What the contract calls out to: the event hash, SHA-256, the message domain of the network, key
      recovery, the mined check, and the oracle's own principal as the registry sees it. */
  datatype Env = Env(self: Principal, hashTx: Event -> Hash32, sha: Merkle.Sha, messageDomain: Bytes,
                     recover: (Bytes, Bytes) -> Option<Bytes>,
                     verifyMined: (Bytes, Mined.Block, Merkle.Proof) -> Outcome<bool>)

  datatype State = State(owner: Principal, relayers: map<Principal, bool>, paused: bool,
                         validators: map<Principal, Bytes>, validatorCount: nat, required: nat,
                         validatedBy: set<(Bytes, Principal)>, txHashToIter: Bytes, registry: V1)

  /** The state right after deployment; the registry is as its own deployer left it. */
  function Deployed(deployer: Principal, registry: V1): State {
    State(deployer, map[], true, map[], 0, MAX_UINT, {}, [], registry)
  }

  // ---------- signatures ----------

  /** The message a validator signs for an event hash. */
  function SignedMessage(env: Env, txHash: Bytes): Bytes {
    env.sha(STRUCTURED_DATA_PREFIX + (env.messageDomain + txHash))
  }

  function ValidateTx(env: Env, s: State, txHash: Bytes, pack: SignaturePack): Outcome<bool> {
    if pack.signer !in s.validators then Err(ERR_UNKNOWN_VALIDATOR)
    else if (txHash, pack.signer) in s.validatedBy then Err(ERR_DUPLICATE_SIGNATURE)
    else if txHash != pack.txHash then Err(ERR_ORDER_HASH_MISMATCH)
    else if env.recover(SignedMessage(env, txHash), pack.signature) != Some(s.validators[pack.signer])
      then Err(ERR_INVALID_SIGNATURE)
    else Ok(true)
  }

  /** The fold of validate-signature-iter, against the hash held in tx-hash-to-iter. */
  function ValidateSignatures(env: Env, s: State, packs: seq<SignaturePack>): Outcome<State>
    decreases |packs|
  {
    if packs == [] then Ok(s)
    else
      var _ :- ValidateTx(env, s, s.txHashToIter, packs[0]);
      ValidateSignatures(env, s.(validatedBy := s.validatedBy + {(s.txHashToIter, packs[0].signer)}), packs[1..])
  }

  // ---------- one event ----------

  function RegistryWrite(env: Env, s: State, w: Write): Outcome<State> {
    var registry :- V1Write(s.registry, env.self, w);
    Ok(s.(registry := registry))
  }

  /** Look the transaction up; only when it is absent is it verified and recorded at the given height. */
  function RecordMined(env: Env, s: State, t: SignedTx): Outcome<State> {
    if V1Mined(s.registry, t.tx.bitcoinTx).Ok? then Ok(s)
    else
      var _ :- env.verifyMined(t.tx.bitcoinTx, t.block, t.proof);
      RegistryWrite(env, s, SetTxMined(t.tx.bitcoinTx, t.block.height))
  }

  function KeyOf(e: Event): IndexKey {
    IndexKey(e.bitcoinTx, e.output, e.offset)
  }

  function TransferOf(e: Event): Transfer {
    Transfer(e.tick, e.amt, e.from, e.to)
  }

  /** Write `amount` for the user when the event is newer than the balance read before any write. */
  function UpdateBalance(env: Env, s: State, t: SignedTx, user: Bytes, amount: nat, before: Balance): Outcome<State> {
    if t.block.height > before.upToBlock
    then RegistryWrite(env, s, SetUserBalance(BalanceKey(user, t.tx.tick), Balance(amount, t.block.height)))
    else Ok(s)
  }

  /** The registry writes of an event whose signatures are in; `fromBal` and `toBal` were read earlier. */
  function WriteEvent(env: Env, s: State, t: SignedTx, fromBal: Balance, toBal: Balance): Outcome<State> {
    var s1 :- RegistryWrite(env, s, SetTxIndexed(KeyOf(t.tx), TransferOf(t.tx)));
    var s2 :- UpdateBalance(env, s1, t, t.tx.from, t.tx.fromBal, fromBal);
    var s3 :- UpdateBalance(env, s2, t, t.tx.to, t.tx.toBal, toBal);
    RegistryWrite(env, s3, SetTickDecimals(t.tx.tick, t.tx.decimals))
  }

  function IndexTx(env: Env, s: State, t: SignedTx): Outcome<State> {
    var fromBal := BalanceOrDefault(s.registry.balances, BalanceKey(t.tx.from, t.tx.tick));
    var toBal := BalanceOrDefault(s.registry.balances, BalanceKey(t.tx.to, t.tx.tick));
    if |t.packs| < s.required then Err(ERR_REQUIRED_VALIDATORS)
    else
      var s1 :- RecordMined(env, s, t);
      var s2 :- ValidateSignatures(env, s1.(txHashToIter := env.hashTx(t.tx)), t.packs);
      WriteEvent(env, s2, t, fromBal, toBal)
  }

  /** The fold of index-tx-iter. */
  function IndexTxs(env: Env, s: State, ts: seq<SignedTx>): Outcome<State>
    decreases |ts|
  {
    if ts == [] then Ok(s)
    else
      var s' :- IndexTx(env, s, ts[0]);
      IndexTxs(env, s', ts[1..])
  }

  /** The relayer test is on the presence of the key: an entry set to false passes. */
  function IndexTxMany(env: Env, s: State, sender: Principal, ts: seq<SignedTx>): Outcome<State> {
    if s.paused then Err(ERR_ORACLE_PAUSED)
    else if sender !in s.relayers then Err(ERR_UNKNOWN_RELAYER)
    else IndexTxs(env, s, ts)
  }

  // ---------- governance ----------

  datatype Call =
    | OracleSetPaused(paused: bool)
    | AddValidator(pubkey: Bytes, validator: Principal)
    | RemoveValidator(validator: Principal)
    | ApproveRelayer(relayer: Principal, approved: bool)
    | SetRequiredValidators(required: nat)
    | OracleSetOwner(owner: Principal)
    | IndexMany(txs: seq<SignedTx>)
    | GovernRegistry(g: Governance)

  function OwnerStep(s: State, call: Call): Outcome<State>
    requires !call.IndexMany? && !call.GovernRegistry?
  {
    match call
    case OracleSetPaused(paused) => Ok(s.(paused := paused))
    case AddValidator(pubkey, validator) =>
      if validator in s.validators then Err(ERR_VALIDATOR_ALREADY_REGISTERED)
      else if s.validatorCount >= MAX_UINT then Abort
      else Ok(s.(validators := s.validators[validator := pubkey], validatorCount := s.validatorCount + 1))
    case RemoveValidator(validator) =>
      if validator !in s.validators then Err(ERR_UNKNOWN_VALIDATOR)
      else if s.validatorCount == 0 then Abort
      else Ok(s.(validators := s.validators - {validator}, validatorCount := s.validatorCount - 1))
    case ApproveRelayer(relayer, approved) => Ok(s.(relayers := s.relayers[relayer := approved]))
    case SetRequiredValidators(required) =>
      if required >= MAX_REQUIRED_VALIDATORS then Err(ERR_REQUIRED_VALIDATORS) else Ok(s.(required := required))
    case OracleSetOwner(owner) => Ok(s.(owner := owner))
  }

  function Step(env: Env, s: State, sender: Principal, call: Call): Outcome<State> {
    if call.IndexMany? then IndexTxMany(env, s, sender, call.txs)
    else if call.GovernRegistry? then
      var registry :- V1Govern(s.registry, sender, call.g);
      Ok(s.(registry := registry))
    else if s.owner != sender then Err(ERR_NOT_AUTHORIZED)
    else OwnerStep(s, call)
  }

  datatype Sent = Sent(sender: Principal, call: Call)

  /** A failed call leaves the state as it was. */
  function After(env: Env, s: State, c: Sent): State {
    var r := Step(env, s, c.sender, c.call);
    if r.Ok? then r.value else s
  }

  function Run(env: Env, s: State, calls: seq<Sent>): State
    decreases |calls|
  {
    if calls == [] then s else Run(env, After(env, s, calls[0]), calls[1..])
  }

  // ---------- the contract as an object ----------

  class OracleContract {
    const registry: RegistryV1
    var owner: Principal
    var relayers: map<Principal, bool>
    var paused: bool
    var validators: map<Principal, Bytes>
    var validatorCount: nat
    var required: nat
    var validatedBy: set<(Bytes, Principal)>
    var txHashToIter: Bytes

    function Snapshot(): State
      reads this, registry
    {
      State(owner, relayers, paused, validators, validatorCount, required, validatedBy, txHashToIter,
            registry.Snapshot())
    }

    constructor (deployer: Principal, registry: RegistryV1)
      ensures Snapshot() == Deployed(deployer, registry.Snapshot()) && this.registry == registry
    {
      this.registry, owner, relayers, paused := registry, deployer, map[], true;
      validators, validatorCount, required, validatedBy, txHashToIter := map[], 0, MAX_UINT, {}, [];
    }

    /** Stops at the first invalid pack, with the earlier ones already recorded. */
    method CheckSignatures(env: Env, packs: seq<SignaturePack>) returns (r: Outcome<bool>)
      modifies this`validatedBy
      ensures match ValidateSignatures(env, old(Snapshot()), packs)
        case Ok(s) => r == Ok(true) && Snapshot() == s
        case Err(e) => r == Err(e)
        case Abort => r == Abort
    {
      var k := 0;
      assert packs[0..] == packs;
      while k < |packs|
        invariant 0 <= k <= |packs|
        invariant ValidateSignatures(env, Snapshot(), packs[k..]) == ValidateSignatures(env, old(Snapshot()), packs)
        invariant Snapshot() == old(Snapshot()).(validatedBy := validatedBy)
      {
        assert packs[k..][0] == packs[k] && packs[k..][1..] == packs[k + 1..];
        r := ValidateTx(env, Snapshot(), txHashToIter, packs[k]);
        if !r.Ok? {
          return;
        }
        validatedBy := validatedBy + {(txHashToIter, packs[k].signer)};
        k := k + 1;
      }
      return Ok(true);
    }

    /** May leave partial writes behind when it fails; IndexAll undoes them. */
    method IndexOne(env: Env, t: SignedTx) returns (r: Outcome<bool>)
      modifies this`validatedBy, this`txHashToIter, registry
      ensures match IndexTx(env, old(Snapshot()), t)
        case Ok(s) => r == Ok(true) && Snapshot() == s
        case Err(e) => r == Err(e)
        case Abort => r == Abort
    {
      var fromBal := BalanceOrDefault(registry.balances, BalanceKey(t.tx.from, t.tx.tick));
      var toBal := BalanceOrDefault(registry.balances, BalanceKey(t.tx.to, t.tx.tick));
      if |t.packs| < required {
        return Err(ERR_REQUIRED_VALIDATORS);
      }
      if t.tx.bitcoinTx !in registry.mined {
        r := env.verifyMined(t.tx.bitcoinTx, t.block, t.proof);
        if !r.Ok? { return; }
        r := registry.Put(env.self, SetTxMined(t.tx.bitcoinTx, t.block.height));
        if !r.Ok? { return; }
      }
      ghost var s1 := RecordMined(env, old(Snapshot()), t).value;
      assert Snapshot() == s1;
      txHashToIter := env.hashTx(t.tx);
      r := CheckSignatures(env, t.packs);
      if !r.Ok? { return; }
      r := PutEvent(env, t, fromBal, toBal);
    }

    method PutEvent(env: Env, t: SignedTx, fromBal: Balance, toBal: Balance) returns (r: Outcome<bool>)
      modifies registry
      ensures match WriteEvent(env, old(Snapshot()), t, fromBal, toBal)
        case Ok(s) => r == Ok(true) && Snapshot() == s
        case Err(e) => r == Err(e)
        case Abort => r == Abort
    {
      r := registry.Put(env.self, SetTxIndexed(KeyOf(t.tx), TransferOf(t.tx)));
      if !r.Ok? { return; }
      if t.block.height > fromBal.upToBlock {
        var balance := Balance(t.tx.fromBal, t.block.height);
        r := registry.Put(env.self, SetUserBalance(BalanceKey(t.tx.from, t.tx.tick), balance));
        if !r.Ok? { return; }
      }
      if t.block.height > toBal.upToBlock {
        var balance := Balance(t.tx.toBal, t.block.height);
        r := registry.Put(env.self, SetUserBalance(BalanceKey(t.tx.to, t.tx.tick), balance));
        if !r.Ok? { return; }
      }
      r := registry.Put(env.self, SetTickDecimals(t.tx.tick, t.tx.decimals));
    }

    method IndexAll(env: Env, sender: Principal, ts: seq<SignedTx>) returns (r: Outcome<bool>)
      modifies this, registry
      ensures Reports(IndexTxMany(env, old(Snapshot()), sender, ts), old(Snapshot()), Snapshot(), r)
    {
      if paused {
        return Err(ERR_ORACLE_PAUSED);
      }
      if sender !in relayers {
        return Err(ERR_UNKNOWN_RELAYER);
      }
      var saved := Snapshot();
      r := Ok(true);
      var k := 0;
      assert ts[0..] == ts;
      while k < |ts| && r.Ok?
        invariant 0 <= k <= |ts|
        invariant r.Ok? ==> r == Ok(true) && IndexTxs(env, Snapshot(), ts[k..]) == IndexTxs(env, saved, ts)
        invariant r.Err? ==> IndexTxs(env, saved, ts) == Err(r.code)
        invariant r.Abort? ==> IndexTxs(env, saved, ts) == Abort
      {
        assert ts[k..][0] == ts[k] && ts[k..][1..] == ts[k + 1..];
        r := IndexOne(env, ts[k]);
        k := k + 1;
      }
      if !r.Ok? {
        Rollback(saved);
      }
    }

    method Rollback(s: State)
      modifies this, registry
      ensures Snapshot() == s
    {
      owner, relayers, paused, validators := s.owner, s.relayers, s.paused, s.validators;
      validatorCount, required := s.validatorCount, s.required;
      validatedBy, txHashToIter := s.validatedBy, s.txHashToIter;
      registry.Restore(s.registry);
    }

    method Configure(sender: Principal, call: Call) returns (r: Outcome<bool>)
      requires !call.IndexMany? && !call.GovernRegistry?
      modifies this
      ensures Reports(if old(owner) != sender then Err(ERR_NOT_AUTHORIZED) else OwnerStep(old(Snapshot()), call),
                      old(Snapshot()), Snapshot(), r)
    {
      if owner != sender {
        return Err(ERR_NOT_AUTHORIZED);
      }
      match call {
        case OracleSetPaused(value) => paused := value;
        case AddValidator(pubkey, validator) =>
          if validator in validators { return Err(ERR_VALIDATOR_ALREADY_REGISTERED); }
          if validatorCount >= MAX_UINT { return Abort; }
          validators, validatorCount := validators[validator := pubkey], validatorCount + 1;
        case RemoveValidator(validator) =>
          if validator !in validators { return Err(ERR_UNKNOWN_VALIDATOR); }
          if validatorCount == 0 { return Abort; }
          validators, validatorCount := validators - {validator}, validatorCount - 1;
        case ApproveRelayer(relayer, approved) => relayers := relayers[relayer := approved];
        case SetRequiredValidators(value) =>
          if value >= MAX_REQUIRED_VALIDATORS { return Err(ERR_REQUIRED_VALIDATORS); }
          required := value;
        case OracleSetOwner(newOwner) => owner := newOwner;
      }
      return Ok(true);
    }

    method Call(env: Env, sender: Principal, call: Call) returns (r: Outcome<bool>)
      modifies this, registry
      ensures Reports(Step(env, old(Snapshot()), sender, call), old(Snapshot()), Snapshot(), r)
    {
      if call.IndexMany? {
        r := IndexAll(env, sender, call.txs);
      } else if call.GovernRegistry? {
        r := registry.Govern(sender, call.g);
      } else {
        r := Configure(sender, call);
      }
    }
  }
}
