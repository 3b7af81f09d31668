/** The two registry contracts. Each public call is a function on a snapshot that yields the new snapshot
    or an error; an error leaves the state as it was. The classes below hold the same state in fields. */
module Registry {
  import opened Clarity

  const ERR_NOT_AUTHORIZED: nat := 1000
  const ERR_PAUSED: nat := 1001
  const ERR_TX_NOT_MINED: nat := 1002
  const ERR_TX_NOT_INDEXED: nat := 1003

  /** Longest key of the v1-01 maps. */
  const LEGACY_KEY: nat := 4096

  type Principal = string
  type Tick = string

  datatype IndexKey = IndexKey(txHash: Bytes, output: nat, offset: nat)
  datatype Transfer = Transfer(tick: Tick, amt: nat, from: Bytes, to: Bytes)
  datatype BalanceKey = BalanceKey(user: Bytes, tick: Tick)
  datatype Balance = Balance(balance: nat, upToBlock: nat)

  // ---------- v1-01 ----------

  datatype V1 = V1(owner: Principal, operators: map<Principal, bool>, paused: bool,
                   mined: map<Bytes, nat>, indexed: map<IndexKey, Transfer>,
                   balances: map<BalanceKey, Balance>, decimals: map<Tick, nat>)

  datatype Write =
    | SetTickDecimals(tick: Tick, decimals: nat)
    | SetUserBalance(user: BalanceKey, balance: Balance)
    | SetTxMined(tx: Bytes, height: nat)
    | SetTxIndexed(key: IndexKey, transfer: Transfer)

  datatype Governance =
    | SetPaused(paused: bool)
    | ApproveOperator(operator: Principal, approved: bool)
    | SetContractOwner(owner: Principal)

  predicate OperatorOrDefault(s: V1, operator: Principal) {
    operator in s.operators && s.operators[operator]
  }

  /** check-is-approved, then the pause flag. */
  function V1Gate(s: V1, sender: Principal): Outcome<bool> {
    if !OperatorOrDefault(s, sender) && s.owner != sender then Err(ERR_NOT_AUTHORIZED)
    else if s.paused then Err(ERR_PAUSED)
    else Ok(true)
  }

  function V1Apply(s: V1, w: Write): V1 {
    match w
    case SetTickDecimals(tick, decimals) => s.(decimals := s.decimals[tick := decimals])
    case SetUserBalance(user, balance) => s.(balances := s.balances[user := balance])
    case SetTxMined(tx, height) => s.(mined := s.mined[tx := height])
    case SetTxIndexed(key, transfer) => s.(indexed := s.indexed[key := transfer])
  }

  function V1Write(s: V1, sender: Principal, w: Write): Outcome<V1> {
    var _ :- V1Gate(s, sender);
    Ok(V1Apply(s, w))
  }

  function V1Govern(s: V1, sender: Principal, g: Governance): Outcome<V1> {
    if s.owner != sender then Err(ERR_NOT_AUTHORIZED)
    else Ok(match g
            case SetPaused(paused) => s.(paused := paused)
            case ApproveOperator(operator, approved) => s.(operators := s.operators[operator := approved])
            case SetContractOwner(owner) => s.(owner := owner))
  }

  function BalanceOrDefault(balances: map<BalanceKey, Balance>, key: BalanceKey): Balance {
    if key in balances then balances[key] else Balance(0, 0)
  }

  function V1Mined(s: V1, tx: Bytes): Outcome<nat> {
    if tx in s.mined then Ok(s.mined[tx]) else Err(ERR_TX_NOT_MINED)
  }

  function V1Indexed(s: V1, key: IndexKey): Outcome<Transfer> {
    if key in s.indexed then Ok(s.indexed[key]) else Err(ERR_TX_NOT_INDEXED)
  }

  // ---------- v1-02 ----------

  /** `self` is the v1-02 contract's own principal, the sender of the calls it forwards. */
  datatype V2 = V2(self: Principal, owner: Principal, paused: bool,
                   mined: map<Bytes, nat>, indexed: map<IndexKey, Transfer>, legacy: V1)

  datatype V2Call =
    | Govern(g: Governance)
    | SetPausedLegacy(paused: bool)
    | SetContractOwnerLegacy(owner: Principal)
    | Put(w: Write)

  function V2Gate(s: V2, sender: Principal): Outcome<bool> {
    if !OperatorOrDefault(s.legacy, sender) && s.owner != sender then Err(ERR_NOT_AUTHORIZED)
    else if s.paused then Err(ERR_PAUSED)
    else Ok(true)
  }

  function V2Step(s: V2, sender: Principal, call: V2Call): Outcome<V2> {
    match call
    case Govern(g) => V2Govern(s, sender, g)
    case SetPausedLegacy(paused) => V2ForwardGovern(s, sender, SetPaused(paused))
    case SetContractOwnerLegacy(owner) => V2ForwardGovern(s, sender, SetContractOwner(owner))
    case Put(w) => V2Write(s, sender, w)
  }

  function V2ForwardGovern(s: V2, sender: Principal, g: Governance): Outcome<V2> {
    if s.owner != sender then Err(ERR_NOT_AUTHORIZED)
    else
      var legacy :- V1Govern(s.legacy, s.self, g);
      Ok(s.(legacy := legacy))
  }

  function V2Govern(s: V2, sender: Principal, g: Governance): Outcome<V2> {
    match g
    case ApproveOperator(_, _) => V2ForwardGovern(s, sender, g)
    case SetPaused(paused) => if s.owner != sender then Err(ERR_NOT_AUTHORIZED) else Ok(s.(paused := paused))
    case SetContractOwner(owner) => if s.owner != sender then Err(ERR_NOT_AUTHORIZED) else Ok(s.(owner := owner))
  }

  function V2Write(s: V2, sender: Principal, w: Write): Outcome<V2> {
    var _ :- V2Gate(s, sender);
    match w
    case SetTxMined(tx, height) => Ok(s.(mined := s.mined[tx := height]))
    case SetTxIndexed(key, transfer) => Ok(s.(indexed := s.indexed[key := transfer]))
    case _ =>
      var legacy :- V1Write(s.legacy, s.self, w);
      Ok(s.(legacy := legacy))
  }

  /** get-bitcoin-tx-mined-or-fail: a key short enough for the legacy map is looked up there first. */
  function V2Mined(s: V2, tx: Bytes): Outcome<nat> {
    if |tx| <= LEGACY_KEY && V1Mined(s.legacy, tx).Ok? then V1Mined(s.legacy, tx)
    else if tx in s.mined then Ok(s.mined[tx])
    else Err(ERR_TX_NOT_MINED)
  }

  function V2Indexed(s: V2, key: IndexKey): Outcome<Transfer> {
    if |key.txHash| <= LEGACY_KEY && V1Indexed(s.legacy, key).Ok? then V1Indexed(s.legacy, key)
    else if key in s.indexed then Ok(s.indexed[key])
    else Err(ERR_TX_NOT_INDEXED)
  }

  // ---------- who may do what ----------

  predicate MayWrite(s: V1, sender: Principal) {
    !s.paused && (sender == s.owner || (sender in s.operators && s.operators[sender]))
  }

  predicate MayWriteV2(s: V2, sender: Principal) {
    !s.paused && (sender == s.owner || (sender in s.legacy.operators && s.legacy.operators[sender]))
  }

  /** A v1-01 setter, both ways: the owner and the operators approved with true may write, unless it is paused; then
      exactly the one map of the setter changes, at its key. */
  lemma V1WriteExact(s: V1, sender: Principal, w: Write)
    ensures V1Write(s, sender, w) ==
      if sender != s.owner && !(sender in s.operators && s.operators[sender]) then Err(1000)
      else if s.paused then Err(1001)
      else Ok(V1(s.owner, s.operators, s.paused,
                 if w.SetTxMined? then s.mined[w.tx := w.height] else s.mined,
                 if w.SetTxIndexed? then s.indexed[w.key := w.transfer] else s.indexed,
                 if w.SetUserBalance? then s.balances[w.user := w.balance] else s.balances,
                 if w.SetTickDecimals? then s.decimals[w.tick := w.decimals] else s.decimals))
  {
  }

  lemma V1GovernExact(s: V1, sender: Principal, g: Governance)
    ensures V1Govern(s, sender, g) ==
      if sender != s.owner then Err(1000)
      else Ok(V1(if g.SetContractOwner? then g.owner else s.owner,
                 if g.ApproveOperator? then s.operators[g.operator := g.approved] else s.operators,
                 if g.SetPaused? then g.paused else s.paused,
                 s.mined, s.indexed, s.balances, s.decimals))
  {
  }

  /** A v1-02 setter, both ways: its own owner and the operators of v1-01 may write, unless v1-02 is paused. The
      index goes to its own maps; balances and decimals go to v1-01, written there by the v1-02 contract. */
  lemma V2WriteExact(s: V2, sender: Principal, w: Write)
    ensures V2Step(s, sender, Put(w)) ==
      if sender != s.owner && !(sender in s.legacy.operators && s.legacy.operators[sender]) then Err(1000)
      else if s.paused then Err(1001)
      else if w.SetTxMined? then
        Ok(V2(s.self, s.owner, s.paused, s.mined[w.tx := w.height], s.indexed, s.legacy))
      else if w.SetTxIndexed? then
        Ok(V2(s.self, s.owner, s.paused, s.mined, s.indexed[w.key := w.transfer], s.legacy))
      else
        match V1Write(s.legacy, s.self, w)
        case Ok(legacy) => Ok(V2(s.self, s.owner, s.paused, s.mined, s.indexed, legacy))
        case Err(e) => Err(e)
        case Abort => Abort
  {
    hide V1Write;
  }

  /** v1-02 keeps a pause flag and an owner of its own; operators, and the two legacy settings, are those of v1-01,
      which obeys only while v1-02 owns it. */
  lemma V2GovernExact(s: V2, sender: Principal, call: V2Call)
    requires !call.Put?
    ensures V2Step(s, sender, call) ==
      if sender != s.owner then Err(1000)
      else if call.Govern? && call.g.SetPaused? then
        Ok(V2(s.self, s.owner, call.g.paused, s.mined, s.indexed, s.legacy))
      else if call.Govern? && call.g.SetContractOwner? then
        Ok(V2(s.self, call.g.owner, s.paused, s.mined, s.indexed, s.legacy))
      else if s.self != s.legacy.owner then Err(1000)
      else
        var l := s.legacy;
        Ok(V2(s.self, s.owner, s.paused, s.mined, s.indexed,
              match call
              case Govern(g) => l.(operators := l.operators[g.operator := g.approved])
              case SetPausedLegacy(paused) => l.(paused := paused)
              case SetContractOwnerLegacy(owner) => l.(owner := owner)))
  {
    V1GovernExact(s.legacy, s.self,
                  match call
                  case Govern(g) => g
                  case SetPausedLegacy(paused) => SetPaused(paused)
                  case SetContractOwnerLegacy(owner) => SetContractOwner(owner));
  }

  // ---------- the contracts as objects ----------

  /** How a method reports a specified call: the new snapshot on success, an unchanged one otherwise. */
  ghost predicate Reports<S>(spec: Outcome<S>, before: S, after: S, r: Outcome<bool>) {
    match spec
    case Ok(s) => r == Ok(true) && after == s
    case Err(e) => r == Err(e) && after == before
    case Abort => r == Abort && after == before
  }

  class RegistryV1 {
    var owner: Principal
    var operators: map<Principal, bool>
    var paused: bool
    var mined: map<Bytes, nat>
    var indexed: map<IndexKey, Transfer>
    var balances: map<BalanceKey, Balance>
    var decimals: map<Tick, nat>

    function Snapshot(): V1
      reads this
    {
      V1(owner, operators, paused, mined, indexed, balances, decimals)
    }

    constructor (deployer: Principal)
      ensures Snapshot() == V1(deployer, map[], true, map[], map[], map[], map[])
    {
      owner, operators, paused := deployer, map[], true;
      mined, indexed, balances, decimals := map[], map[], map[], map[];
    }

    method Put(sender: Principal, w: Write) returns (r: Outcome<bool>)
      modifies this
      ensures Reports(V1Write(old(Snapshot()), sender, w), old(Snapshot()), Snapshot(), r)
    {
      var approved := sender in operators && operators[sender];
      if !approved && owner != sender {
        return Err(ERR_NOT_AUTHORIZED);
      }
      if paused {
        return Err(ERR_PAUSED);
      }
      match w {
        case SetTickDecimals(tick, value) => decimals := decimals[tick := value];
        case SetUserBalance(user, balance) => balances := balances[user := balance];
        case SetTxMined(tx, height) => mined := mined[tx := height];
        case SetTxIndexed(key, transfer) => indexed := indexed[key := transfer];
      }
      return Ok(true);
    }

    method Govern(sender: Principal, g: Governance) returns (r: Outcome<bool>)
      modifies this
      ensures Reports(V1Govern(old(Snapshot()), sender, g), old(Snapshot()), Snapshot(), r)
    {
      if owner != sender {
        return Err(ERR_NOT_AUTHORIZED);
      }
      match g {
        case SetPaused(value) => paused := value;
        case ApproveOperator(operator, approved) => operators := operators[operator := approved];
        case SetContractOwner(newOwner) => owner := newOwner;
      }
      return Ok(true);
    }

    /** The rollback the chain performs when the enclosing transaction fails. */
    method Restore(s: V1)
      modifies this
      ensures Snapshot() == s
    {
      owner, operators, paused := s.owner, s.operators, s.paused;
      mined, indexed, balances, decimals := s.mined, s.indexed, s.balances, s.decimals;
    }
  }

  class RegistryV2 {
    const self: Principal
    const legacy: RegistryV1
    var owner: Principal
    var paused: bool
    var mined: map<Bytes, nat>
    var indexed: map<IndexKey, Transfer>

    function Snapshot(): V2
      reads this, legacy
    {
      V2(self, owner, paused, mined, indexed, legacy.Snapshot())
    }

    constructor (self: Principal, deployer: Principal, legacy: RegistryV1)
      ensures Snapshot() == V2(self, deployer, true, map[], map[], legacy.Snapshot())
      ensures this.legacy == legacy
    {
      this.self, this.legacy, owner, paused := self, legacy, deployer, true;
      mined, indexed := map[], map[];
    }

    method Call(sender: Principal, call: V2Call) returns (r: Outcome<bool>)
      modifies this, legacy
      ensures Reports(V2Step(old(Snapshot()), sender, call), old(Snapshot()), Snapshot(), r)
    {
      match call {
        case Govern(g) => r := Configure(sender, g);
        case SetPausedLegacy(value) => r := ForwardGovern(sender, SetPaused(value));
        case SetContractOwnerLegacy(newOwner) => r := ForwardGovern(sender, SetContractOwner(newOwner));
        case Put(w) => r := Store(sender, w);
      }
    }

    method ForwardGovern(sender: Principal, g: Governance) returns (r: Outcome<bool>)
      modifies legacy
      ensures Reports(V2ForwardGovern(old(Snapshot()), sender, g), old(Snapshot()), Snapshot(), r)
    {
      if owner != sender {
        return Err(ERR_NOT_AUTHORIZED);
      }
      r := legacy.Govern(self, g);
    }

    method Configure(sender: Principal, g: Governance) returns (r: Outcome<bool>)
      modifies this, legacy
      ensures Reports(V2Govern(old(Snapshot()), sender, g), old(Snapshot()), Snapshot(), r)
    {
      if g.ApproveOperator? {
        r := ForwardGovern(sender, g);
        return;
      }
      if owner != sender {
        return Err(ERR_NOT_AUTHORIZED);
      }
      if g.SetPaused? {
        paused := g.paused;
      } else {
        owner := g.owner;
      }
      return Ok(true);
    }

    method Store(sender: Principal, w: Write) returns (r: Outcome<bool>)
      modifies this, legacy
      ensures Reports(V2Write(old(Snapshot()), sender, w), old(Snapshot()), Snapshot(), r)
    {
      var approved := sender in legacy.operators && legacy.operators[sender];
      if !approved && owner != sender {
        return Err(ERR_NOT_AUTHORIZED);
      }
      if paused {
        return Err(ERR_PAUSED);
      }
      match w {
        case SetTxMined(tx, height) =>
          mined := mined[tx := height];
          r := Ok(true);
        case SetTxIndexed(key, transfer) =>
          indexed := indexed[key := transfer];
          r := Ok(true);
        case SetTickDecimals(_, _) => r := legacy.Put(self, w);
        case SetUserBalance(_, _) => r := legacy.Put(self, w);
      }
    }

    method GetMined(tx: Bytes) returns (r: Outcome<nat>)
      ensures r == V2Mined(Snapshot(), tx)
    {
      if |tx| <= LEGACY_KEY && tx in legacy.mined {
        return Ok(legacy.mined[tx]);
      }
      return if tx in mined then Ok(mined[tx]) else Err(ERR_TX_NOT_MINED);
    }

    method GetIndexed(key: IndexKey) returns (r: Outcome<Transfer>)
      ensures r == V2Indexed(Snapshot(), key)
    {
      if |key.txHash| <= LEGACY_KEY && key in legacy.indexed {
        return Ok(legacy.indexed[key]);
      }
      return if key in indexed then Ok(indexed[key]) else Err(ERR_TX_NOT_INDEXED);
    }
  }
}

/** The overlay as one map: v1-02 over v1-01 behaves like a single map whose legacy keys are frozen. */
module RegistryOverlay {
  import opened Clarity
  import opened Registry

  /** The key bounds the types of the legacy maps enforce. */
  ghost predicate LegacyTyped(s: V1) {
    && (forall tx :: tx in s.mined ==> |tx| <= LEGACY_KEY)
    && (forall key :: key in s.indexed ==> |key.txHash| <= LEGACY_KEY)
  }

  ghost function MergedMined(s: V2): map<Bytes, nat> {
    s.mined + s.legacy.mined
  }

  ghost function MergedIndexed(s: V2): map<IndexKey, Transfer> {
    s.indexed + s.legacy.indexed
  }

  ghost function LookUp<K, V>(m: map<K, V>, k: K, missing: nat): Outcome<V> {
    if k in m then Ok(m[k]) else Err(missing)
  }

  lemma V1Lookups(s: V1, tx: Bytes, key: IndexKey)
    ensures V1Mined(s, tx) == LookUp(s.mined, tx, 1002)
    ensures V1Indexed(s, key) == LookUp(s.indexed, key, 1003)
  {
  }

  lemma LookupsAreMerged(s: V2, tx: Bytes, key: IndexKey)
    requires LegacyTyped(s.legacy)
    ensures V2Mined(s, tx) == LookUp(MergedMined(s), tx, 1002)
    ensures V2Indexed(s, key) == LookUp(MergedIndexed(s), key, 1003)
  {
  }

  datatype Sent = Sent(sender: Principal, call: V2Call)

  function After(s: V2, c: Sent): V2 {
    var r := V2Step(s, c.sender, c.call);
    if r.Ok? then r.value else s
  }

  function Run(s: V2, calls: seq<Sent>): V2
    decreases |calls|
  {
    if calls == [] then s else Run(After(s, calls[0]), calls[1..])
  }

  /** The accepted set-tx-mined writes of a run, in order; likewise for set-tx-indexed. */
  function MinedWrites(s: V2, calls: seq<Sent>): seq<(Bytes, nat)>
    decreases |calls|
  {
    if calls == [] then []
    else
      var c := calls[0].call;
      (if MinedAccepted(s, calls[0]) then [(c.w.tx, c.w.height)] else [])
      + MinedWrites(After(s, calls[0]), calls[1..])
  }

  function IndexedWrites(s: V2, calls: seq<Sent>): seq<(IndexKey, Transfer)>
    decreases |calls|
  {
    if calls == [] then []
    else
      var c := calls[0].call;
      (if IndexedAccepted(s, calls[0]) then [(c.w.key, c.w.transfer)] else [])
      + IndexedWrites(After(s, calls[0]), calls[1..])
  }

  /** The reference machine: one map, and a write to a frozen key changes nothing. */
  function Overlay<K, V>(m: map<K, V>, frozen: set<K>, writes: seq<(K, V)>): map<K, V>
    decreases |writes|
  {
    if writes == [] then m
    else Overlay(if writes[0].0 in frozen then m else m[writes[0].0 := writes[0].1], frozen, writes[1..])
  }

  predicate MinedAccepted(s: V2, c: Sent) {
    c.call.Put? && c.call.w.SetTxMined? && MayWriteV2(s, c.sender)
  }

  predicate IndexedAccepted(s: V2, c: Sent) {
    c.call.Put? && c.call.w.SetTxIndexed? && MayWriteV2(s, c.sender)
  }

  ghost predicate SameLegacyIndex(a: V2, b: V2) {
    a.legacy.mined == b.legacy.mined && a.legacy.indexed == b.legacy.indexed
  }

  /** One call: an accepted write reaches the contract's own map, and nothing reaches the legacy ones. */
  lemma {:induction false} StepEffect(s: V2, c: Sent)
    ensures var s' := After(s, c);
      && SameLegacyIndex(s, s')
      && s'.mined == (if MinedAccepted(s, c) then s.mined[c.call.w.tx := c.call.w.height] else s.mined)
      && s'.indexed == (if IndexedAccepted(s, c) then s.indexed[c.call.w.key := c.call.w.transfer] else s.indexed)
  {
    hide V2Step, V1Write;
    if c.call.Put? {
      V2WriteExact(s, c.sender, c.call.w);
      V1WriteExact(s.legacy, s.self, c.call.w);
    } else {
      V2GovernExact(s, c.sender, c.call);
    }
  }

  lemma MergeUpdate<K, V>(own: map<K, V>, legacy: map<K, V>, k: K, v: V)
    ensures own[k := v] + legacy == if k in legacy then own + legacy else (own + legacy)[k := v]
  {
  }

  lemma {:induction false} MinedRefines(s: V2, calls: seq<Sent>)
    ensures Run(s, calls).legacy.mined == s.legacy.mined
    ensures MergedMined(Run(s, calls)) == Overlay(MergedMined(s), s.legacy.mined.Keys, MinedWrites(s, calls))
    decreases |calls|
  {
    hide After, Overlay, MayWriteV2;
    if calls == [] {
      OverlayNil(MergedMined(s), s.legacy.mined.Keys);
    } else {
      var s', w := After(s, calls[0]), calls[0].call;
      StepEffect(s, calls[0]);
      MinedRefines(s', calls[1..]);
      if MinedAccepted(s, calls[0]) {
        MergeUpdate(s.mined, s.legacy.mined, w.w.tx, w.w.height);
        OverlayCons(MergedMined(s), s.legacy.mined.Keys, (w.w.tx, w.w.height), MinedWrites(s', calls[1..]));
      } else {
        assert MinedWrites(s, calls) == MinedWrites(s', calls[1..]);
      }
    }
  }

  lemma {:induction false} IndexedRefines(s: V2, calls: seq<Sent>)
    ensures Run(s, calls).legacy.indexed == s.legacy.indexed
    ensures MergedIndexed(Run(s, calls)) == Overlay(MergedIndexed(s), s.legacy.indexed.Keys, IndexedWrites(s, calls))
    decreases |calls|
  {
    hide After, Overlay, MayWriteV2;
    if calls == [] {
      OverlayNil(MergedIndexed(s), s.legacy.indexed.Keys);
    } else {
      var s', w := After(s, calls[0]), calls[0].call;
      StepEffect(s, calls[0]);
      IndexedRefines(s', calls[1..]);
      if IndexedAccepted(s, calls[0]) {
        MergeUpdate(s.indexed, s.legacy.indexed, w.w.key, w.w.transfer);
        OverlayCons(MergedIndexed(s), s.legacy.indexed.Keys, (w.w.key, w.w.transfer), IndexedWrites(s', calls[1..]));
      } else {
        assert IndexedWrites(s, calls) == IndexedWrites(s', calls[1..]);
      }
    }
  }

  lemma OverlayNil<K, V>(m: map<K, V>, frozen: set<K>)
    ensures Overlay(m, frozen, []) == m
  {
  }

  /** Refinement over every run of v1-02 calls: the legacy maps stay as they were, and what the two layers
      show together is the reference machine's map after the accepted writes. */
  lemma OverlayRefines(s: V2, calls: seq<Sent>)
    ensures Run(s, calls).legacy.mined == s.legacy.mined && Run(s, calls).legacy.indexed == s.legacy.indexed
    ensures MergedMined(Run(s, calls)) == Overlay(MergedMined(s), s.legacy.mined.Keys, MinedWrites(s, calls))
    ensures MergedIndexed(Run(s, calls)) == Overlay(MergedIndexed(s), s.legacy.indexed.Keys, IndexedWrites(s, calls))
  {
    MinedRefines(s, calls);
    IndexedRefines(s, calls);
  }

  lemma OverlayCons<K, V>(m: map<K, V>, frozen: set<K>, w: (K, V), rest: seq<(K, V)>)
    ensures Overlay(m, frozen, [w] + rest) == Overlay(if w.0 in frozen then m else m[w.0 := w.1], frozen, rest)
  {
    assert ([w] + rest)[1..] == rest;
  }

  /** The last write to `k`, if there is one. */
  function LastWrite<K(==), V>(k: K, writes: seq<(K, V)>): Option<V> {
    if writes == [] then None
    else if writes[|writes| - 1].0 == k then Some(writes[|writes| - 1].1)
    else LastWrite(k, writes[..|writes| - 1])
  }

  lemma {:induction false} OverlaySnoc<K, V>(m: map<K, V>, frozen: set<K>, init: seq<(K, V)>, w: (K, V))
    ensures var mid := Overlay(m, frozen, init);
      Overlay(m, frozen, init + [w]) == if w.0 in frozen then mid else mid[w.0 := w.1]
    decreases |init|
  {
    if init == [] {
      assert [] + [w] == [w];
      OverlayCons(m, frozen, w, []);
    } else {
      assert (init + [w])[1..] == init[1..] + [w];
      OverlaySnoc(if init[0].0 in frozen then m else m[init[0].0 := init[0].1], frozen, init[1..], w);
    }
  }

  lemma {:induction false} OverlayLookup<K, V>(m: map<K, V>, frozen: set<K>, writes: seq<(K, V)>, k: K, missing: nat)
    ensures LookUp(Overlay(m, frozen, writes), k, missing) ==
      match (if k in frozen then None else LastWrite(k, writes))
      case Some(v) => Ok(v)
      case None => LookUp(m, k, missing)
    decreases |writes|
  {
    if writes != [] {
      var init, w := writes[..|writes| - 1], writes[|writes| - 1];
      assert writes == init + [w];
      OverlaySnoc(m, frozen, init, w);
      OverlayLookup(m, frozen, init, k, missing);
    }
  }

  /** What a caller of v1-02 sees after any run: a legacy entry's answer is kept forever, and any other
      key answers with its last accepted write, or as before when there was none. */
  lemma OverlayAnswers(s: V2, calls: seq<Sent>, tx: Bytes, key: IndexKey)
    requires LegacyTyped(s.legacy)
    ensures V2Mined(Run(s, calls), tx) ==
      match (if tx in s.legacy.mined then None else LastWrite(tx, MinedWrites(s, calls)))
      case Some(height) => Ok(height)
      case None => V2Mined(s, tx)
    ensures V2Indexed(Run(s, calls), key) ==
      match (if key in s.legacy.indexed then None else LastWrite(key, IndexedWrites(s, calls)))
      case Some(transfer) => Ok(transfer)
      case None => V2Indexed(s, key)
  {
    hide V2Mined, V2Indexed, MergedMined, MergedIndexed, Overlay, LookUp;
    OverlayRefines(s, calls);
    LookupsAreMerged(s, tx, key);
    LookupsAreMerged(Run(s, calls), tx, key);
    OverlayLookup(MergedMined(s), s.legacy.mined.Keys, MinedWrites(s, calls), tx, ERR_TX_NOT_MINED);
    OverlayLookup(MergedIndexed(s), s.legacy.indexed.Keys, IndexedWrites(s, calls), key, ERR_TX_NOT_INDEXED);
  }
}
