/** Registry v1-02 while v1-01 is still written directly: its owner and its operators, whom v1-02 itself approves
    by forwarding, keep their access. */
module RegistryMixed {
  import opened Clarity
  import opened Registry
  import opened RegistryOverlay

  /** A call to v1-02, or one that goes to v1-01 directly. */
  datatype MixedCall =
    | ToV2(sent: Sent)
    | PutV1(sender: Principal, w: Write)
    | GovernV1(sender: Principal, g: Governance)

  function MixedStep(s: V2, c: MixedCall): V2 {
    match c
    case ToV2(sent) => After(s, sent)
    case PutV1(sender, w) =>
      var r := V1Write(s.legacy, sender, w);
      if r.Ok? then s.(legacy := r.value) else s
    case GovernV1(sender, g) =>
      var r := V1Govern(s.legacy, sender, g);
      if r.Ok? then s.(legacy := r.value) else s
  }

  function MixedRun(s: V2, calls: seq<MixedCall>): V2
    decreases |calls|
  {
    if calls == [] then s else MixedRun(MixedStep(s, calls[0]), calls[1..])
  }

  // ---------- which writes are accepted where ----------

  predicate DirectAccepted(s: V2, c: MixedCall) {
    c.PutV1? && MayWrite(s.legacy, c.sender)
  }

  function OwnMinedStep(s: V2, c: MixedCall): seq<(Bytes, nat)> {
    if c.ToV2? && MinedAccepted(s, c.sent) then [(c.sent.call.w.tx, c.sent.call.w.height)] else []
  }

  function OwnIndexedStep(s: V2, c: MixedCall): seq<(IndexKey, Transfer)> {
    if c.ToV2? && IndexedAccepted(s, c.sent) then [(c.sent.call.w.key, c.sent.call.w.transfer)] else []
  }

  function DirectMinedStep(s: V2, c: MixedCall): seq<(Bytes, nat)> {
    if DirectAccepted(s, c) && c.w.SetTxMined? then [(c.w.tx, c.w.height)] else []
  }

  function DirectIndexedStep(s: V2, c: MixedCall): seq<(IndexKey, Transfer)> {
    if DirectAccepted(s, c) && c.w.SetTxIndexed? then [(c.w.key, c.w.transfer)] else []
  }

  /** The accepted writes of a run, by layer and map, in order. */
  function Gather<W>(step: (V2, MixedCall) -> seq<W>, s: V2, calls: seq<MixedCall>): seq<W>
    decreases |calls|
  {
    if calls == [] then [] else step(s, calls[0]) + Gather(step, MixedStep(s, calls[0]), calls[1..])
  }

  /** The writes of one step, at most one to each map. */
  ghost predicate StepWrites(s: V2, c: MixedCall, s': V2) {
    && s'.mined == Written(s.mined, OwnMinedStep(s, c))
    && s'.indexed == Written(s.indexed, OwnIndexedStep(s, c))
    && s'.legacy.mined == Written(s.legacy.mined, DirectMinedStep(s, c))
    && s'.legacy.indexed == Written(s.legacy.indexed, DirectIndexedStep(s, c))
  }

  ghost function Written<K, V>(m: map<K, V>, writes: seq<(K, V)>): map<K, V> {
    if writes == [] then m else m[writes[0].0 := writes[0].1]
  }

  lemma ToV2Writes(s: V2, sent: Sent)
    ensures StepWrites(s, ToV2(sent), After(s, sent))
  {
    hide V1Gate, MayWriteV2, After;
    StepEffect(s, sent);
  }

  lemma V1WriteEffect(s: V1, sender: Principal, w: Write)
    ensures V1Write(s, sender, w).Ok? <==> MayWrite(s, sender)
    ensures V1Write(s, sender, w).Ok? ==>
      var s' := V1Write(s, sender, w).value;
      && s'.mined == (if w.SetTxMined? then s.mined[w.tx := w.height] else s.mined)
      && s'.indexed == (if w.SetTxIndexed? then s.indexed[w.key := w.transfer] else s.indexed)
  {
    V1WriteExact(s, sender, w);
  }

  lemma {:induction false} DirectWrites(s: V2, c: MixedCall)
    requires !c.ToV2?
    ensures StepWrites(s, c, MixedStep(s, c))
  {
    hide MayWrite, V1Write, V1Govern, After, MinedAccepted, IndexedAccepted;
    if c.PutV1? {
      V1WriteEffect(s.legacy, c.sender, c.w);
    } else if V1Govern(s.legacy, c.sender, c.g).Ok? {
      V1GovernExact(s.legacy, c.sender, c.g);
    }
  }

  lemma {:induction false} MixedStepEffect(s: V2, c: MixedCall)
    ensures var s' := MixedStep(s, c);
      && s'.mined == Overlay(s.mined, {}, OwnMinedStep(s, c))
      && s'.indexed == Overlay(s.indexed, {}, OwnIndexedStep(s, c))
      && s'.legacy.mined == Overlay(s.legacy.mined, {}, DirectMinedStep(s, c))
      && s'.legacy.indexed == Overlay(s.legacy.indexed, {}, DirectIndexedStep(s, c))
  {
    hide After, Overlay, Written, V1Write, V1Govern, MinedAccepted, IndexedAccepted, DirectAccepted;
    OverlayOne(s.mined, OwnMinedStep(s, c));
    OverlayOne(s.indexed, OwnIndexedStep(s, c));
    OverlayOne(s.legacy.mined, DirectMinedStep(s, c));
    OverlayOne(s.legacy.indexed, DirectIndexedStep(s, c));
    if c.ToV2? {
      ToV2Writes(s, c.sent);
    } else {
      DirectWrites(s, c);
    }
  }

  lemma OverlayOne<K, V>(m: map<K, V>, writes: seq<(K, V)>)
    requires |writes| <= 1
    ensures Overlay(m, {}, writes) == Written(m, writes)
  {
    if writes != [] {
      assert writes == [writes[0]] + [];
      OverlayCons(m, {}, writes[0], []);
    }
  }

  lemma {:induction false} OverlayAppend<K, V>(m: map<K, V>, frozen: set<K>, a: seq<(K, V)>, b: seq<(K, V)>)
    ensures Overlay(m, frozen, a + b) == Overlay(Overlay(m, frozen, a), frozen, b)
    decreases |a|
  {
    if a == [] {
      assert a + b == b;
    } else {
      assert (a + b)[0] == a[0] && (a + b)[1..] == a[1..] + b;
      OverlayAppend(if a[0].0 in frozen then m else m[a[0].0 := a[0].1], frozen, a[1..], b);
    }
  }

  /** After any mixed run each of the four maps is what its own accepted writes make of it. */
  lemma {:induction false} MixedLayers(s: V2, calls: seq<MixedCall>)
    ensures var s' := MixedRun(s, calls);
      && s'.mined == Overlay(s.mined, {}, Gather(OwnMinedStep, s, calls))
      && s'.indexed == Overlay(s.indexed, {}, Gather(OwnIndexedStep, s, calls))
      && s'.legacy.mined == Overlay(s.legacy.mined, {}, Gather(DirectMinedStep, s, calls))
      && s'.legacy.indexed == Overlay(s.legacy.indexed, {}, Gather(DirectIndexedStep, s, calls))
    decreases |calls|
  {
    hide MixedStep, Overlay, OwnMinedStep, OwnIndexedStep, DirectMinedStep, DirectIndexedStep;
    if calls == [] {
      OverlayNil(s.mined, {});
      OverlayNil(s.indexed, {});
      OverlayNil(s.legacy.mined, {});
      OverlayNil(s.legacy.indexed, {});
    } else {
      var c, rest := calls[0], calls[1..];
      var next := MixedStep(s, c);
      MixedStepEffect(s, c);
      MixedLayers(next, rest);
      OverlayAppend(s.mined, {}, OwnMinedStep(s, c), Gather(OwnMinedStep, next, rest));
      OverlayAppend(s.indexed, {}, OwnIndexedStep(s, c), Gather(OwnIndexedStep, next, rest));
      OverlayAppend(s.legacy.mined, {}, DirectMinedStep(s, c), Gather(DirectMinedStep, next, rest));
      OverlayAppend(s.legacy.indexed, {}, DirectIndexedStep(s, c), Gather(DirectIndexedStep, next, rest));
    }
  }

  /** What a reader of one layer over another sees: the last direct write to the lower one, else its old entry,
      else the last write to the upper one, else what it held before. */
  function Answer<V>(short: bool, direct: Option<V>, legacy: Outcome<V>, own: Option<V>, before: Outcome<V>)
    : Outcome<V>
  {
    if short && direct.Some? then Ok(direct.value)
    else if short && legacy.Ok? then legacy
    else if own.Some? then Ok(own.value)
    else before
  }

  lemma {:induction false} LayerLookup<K, V>(m: map<K, V>, writes: seq<(K, V)>, k: K, missing: nat)
    ensures LookUp(Overlay(m, {}, writes), k, missing) ==
      match LastWrite(k, writes)
      case Some(v) => Ok(v)
      case None => LookUp(m, k, missing)
  {
    OverlayLookup(m, {}, writes, k, missing);
  }

  /** The answers of v1-02 after any mixed run, for every key. */
  lemma {:induction false} MixedAnswers(s: V2, calls: seq<MixedCall>, tx: Bytes, key: IndexKey)
    ensures V2Mined(MixedRun(s, calls), tx) ==
      Answer(|tx| <= 4096, LastWrite(tx, Gather(DirectMinedStep, s, calls)), V1Mined(s.legacy, tx),
             LastWrite(tx, Gather(OwnMinedStep, s, calls)), V2Mined(s, tx))
    ensures V2Indexed(MixedRun(s, calls), key) ==
      Answer(|key.txHash| <= 4096, LastWrite(key, Gather(DirectIndexedStep, s, calls)), V1Indexed(s.legacy, key),
             LastWrite(key, Gather(OwnIndexedStep, s, calls)), V2Indexed(s, key))
  {
    hide MixedRun, Overlay, LastWrite, Gather;
    MixedLayers(s, calls);
    LayerLookup(s.mined, Gather(OwnMinedStep, s, calls), tx, 1002);
    LayerLookup(s.legacy.mined, Gather(DirectMinedStep, s, calls), tx, 1002);
    LayerLookup(s.indexed, Gather(OwnIndexedStep, s, calls), key, 1003);
    LayerLookup(s.legacy.indexed, Gather(DirectIndexedStep, s, calls), key, 1003);
  }

  /** The last write, if there is one, was of this very value. */
  predicate NoneOrSame<V(==)>(last: Option<V>, value: V) {
    last.Some? ==> last.value == value
  }

  /** Exactly when a legacy answer survives a mixed run: when its key was not written directly, or the last
      direct write repeats it. Writes through v1-02 never matter to it. */
  lemma LegacyKeptExactly(s: V2, calls: seq<MixedCall>, tx: Bytes, key: IndexKey)
    ensures |tx| <= 4096 && tx in s.legacy.mined ==>
      (V2Mined(MixedRun(s, calls), tx) == V2Mined(s, tx) <==>
         NoneOrSame(LastWrite(tx, Gather(DirectMinedStep, s, calls)), s.legacy.mined[tx]))
    ensures |key.txHash| <= 4096 && key in s.legacy.indexed ==>
      (V2Indexed(MixedRun(s, calls), key) == V2Indexed(s, key) <==>
         NoneOrSame(LastWrite(key, Gather(DirectIndexedStep, s, calls)), s.legacy.indexed[key]))
  {
    hide MixedRun, LastWrite, Gather;
    MixedAnswers(s, calls, tx, key);
  }

  /** Exactly when an entry written through v1-02, and unknown to v1-01, is still the answer: when its key is too
      long for v1-01, or nobody wrote a different entry for it into v1-01 since. */
  lemma OwnSeenExactly(s: V2, calls: seq<MixedCall>, tx: Bytes, key: IndexKey)
    ensures var own := LastWrite(tx, Gather(OwnMinedStep, s, calls));
      tx !in s.legacy.mined && own.Some? ==>
        (V2Mined(MixedRun(s, calls), tx) == Ok(own.value) <==>
           |tx| > 4096 || NoneOrSame(LastWrite(tx, Gather(DirectMinedStep, s, calls)), own.value))
    ensures var own := LastWrite(key, Gather(OwnIndexedStep, s, calls));
      key !in s.legacy.indexed && own.Some? ==>
        (V2Indexed(MixedRun(s, calls), key) == Ok(own.value) <==>
           |key.txHash| > 4096 || NoneOrSame(LastWrite(key, Gather(DirectIndexedStep, s, calls)), own.value))
  {
    hide MixedRun, LastWrite, Gather;
    MixedAnswers(s, calls, tx, key);
  }

  // ---------- who changed what ----------

  lemma {:induction false} MixedRunSnoc(s: V2, calls: seq<MixedCall>, c: MixedCall)
    ensures MixedRun(s, calls + [c]) == MixedStep(MixedRun(s, calls), c)
    decreases |calls|
  {
    hide MixedStep;
    if calls == [] {
      assert [] + [c] == [c] && [c][1..] == [];
      assert MixedRun(s, [c]) == MixedRun(MixedStep(s, c), []);
    } else {
      assert (calls + [c])[0] == calls[0] && (calls + [c])[1..] == calls[1..] + [c];
      MixedRunSnoc(MixedStep(s, calls[0]), calls[1..], c);
    }
  }

  /** The settings of both contracts. */
  datatype Settings = Settings(owner: Principal, paused: bool, legacyOwner: Principal, legacyPaused: bool,
                               operators: map<Principal, bool>)

  function SettingsOf(s: V2): Settings {
    Settings(s.owner, s.paused, s.legacy.owner, s.legacy.paused, s.legacy.operators)
  }

  /** The settings after a list of calls, read off the calls from the last one back: each setting is what the last
      call to set it said, if its sender owned the contract then - for the settings of v1-01 set through v1-02, if
      the sender owned v1-02 and v1-02, whose principal is `self`, owned v1-01. */
  function SettingsAfter(self: Principal, st: Settings, calls: seq<MixedCall>): Settings {
    if calls == [] then st
    else
      var now, c := SettingsAfter(self, st, calls[..|calls| - 1]), calls[|calls| - 1];
      match c
      case PutV1(_, _) => now
      case GovernV1(sender, g) => if sender == now.legacyOwner then LegacySet(now, g) else now
      case ToV2(sent) =>
        if sent.sender != now.owner then now
        else match sent.call
          case Put(_) => now
          case Govern(SetPaused(paused)) => now.(paused := paused)
          case Govern(SetContractOwner(owner)) => now.(owner := owner)
          case Govern(ApproveOperator(o, a)) =>
            if self == now.legacyOwner then LegacySet(now, ApproveOperator(o, a)) else now
          case SetPausedLegacy(paused) =>
            if self == now.legacyOwner then LegacySet(now, SetPaused(paused)) else now
          case SetContractOwnerLegacy(o) =>
            if self == now.legacyOwner then LegacySet(now, SetContractOwner(o)) else now
  }

  function LegacySet(st: Settings, g: Governance): Settings {
    match g
    case SetPaused(paused) => st.(legacyPaused := paused)
    case ApproveOperator(operator, approved) => st.(operators := st.operators[operator := approved])
    case SetContractOwner(owner) => st.(legacyOwner := owner)
  }

  lemma MixedStepSettings(s: V2, c: MixedCall, st: Settings)
    requires st == SettingsOf(s)
    ensures SettingsOf(MixedStep(s, c)) == SettingsAfter(s.self, st, [c]) && MixedStep(s, c).self == s.self
  {
    hide V2Step, V1Write, V1Govern;
    assert SettingsAfter(s.self, st, []) == st && [c][..0] == [];
    match c
    case PutV1(sender, w) => V1WriteExact(s.legacy, sender, w);
    case GovernV1(sender, g) => V1GovernExact(s.legacy, sender, g);
    case ToV2(sent) =>
      if sent.call.Put? {
        V2WriteExact(s, sent.sender, sent.call.w);
        V1WriteExact(s.legacy, s.self, sent.call.w);
      } else {
        V2GovernExact(s, sent.sender, sent.call);
      }
  }

  /** After any mixed run every setting of both contracts is what the calls say. */
  lemma {:induction false} SettingsFromCalls(s: V2, calls: seq<MixedCall>)
    ensures SettingsOf(MixedRun(s, calls)) == SettingsAfter(s.self, SettingsOf(s), calls)
    ensures MixedRun(s, calls).self == s.self
    decreases |calls|
  {
    hide MixedStep, LegacySet;
    if calls != [] {
      var init, c := calls[..|calls| - 1], calls[|calls| - 1];
      SettingsFromCalls(s, init);
      assert calls == init + [c];
      MixedRunSnoc(s, init, c);
      MixedStepSettings(MixedRun(s, init), c, SettingsAfter(s.self, SettingsOf(s), init));
      LastSetting(s.self, SettingsOf(s), calls);
    }
  }

  lemma LastSetting(self: Principal, st: Settings, calls: seq<MixedCall>)
    requires calls != []
    ensures var init, c := calls[..|calls| - 1], calls[|calls| - 1];
      SettingsAfter(self, st, calls) == SettingsAfter(self, SettingsAfter(self, st, init), [c])
  {
    hide LegacySet;
    var now := SettingsAfter(self, st, calls[..|calls| - 1]);
    assert [calls[|calls| - 1]][..0] == [];
    assert SettingsAfter(self, now, []) == now;
  }

  /** The six maps of both contracts. */
  ghost predicate SameData(s: V2, s': V2) {
    && s.mined == s'.mined && s.indexed == s'.indexed
    && s.legacy.mined == s'.legacy.mined && s.legacy.indexed == s'.legacy.indexed
    && s.legacy.balances == s'.legacy.balances && s.legacy.decimals == s'.legacy.decimals
  }

  /** A write whose sender is the owner of the contract called or an approved operator, while that contract is not
      paused - and, for what v1-02 forwards, while v1-02 may write to v1-01 in the same way. */
  ghost predicate AuthorisedWrite(self: Principal, st: Settings, c: MixedCall) {
    match c
    case PutV1(sender, _) =>
      !st.legacyPaused && (sender == st.legacyOwner || (sender in st.operators && st.operators[sender]))
    case GovernV1(_, _) => false
    case ToV2(sent) =>
      && sent.call.Put? && !st.paused
      && (sent.sender == st.owner || (sent.sender in st.operators && st.operators[sent.sender]))
      && (sent.call.w.SetUserBalance? || sent.call.w.SetTickDecimals? ==>
            !st.legacyPaused && (self == st.legacyOwner || (self in st.operators && st.operators[self])))
  }

  lemma UnauthorisedKeepsData(s: V2, c: MixedCall)
    requires !AuthorisedWrite(s.self, SettingsOf(s), c)
    ensures SameData(s, MixedStep(s, c))
  {
    hide V2Step, V1Write, V1Govern;
    match c
    case PutV1(sender, w) => V1WriteExact(s.legacy, sender, w);
    case GovernV1(sender, g) => V1GovernExact(s.legacy, sender, g);
    case ToV2(sent) =>
      if sent.call.Put? {
        V2WriteExact(s, sent.sender, sent.call.w);
        V1WriteExact(s.legacy, s.self, sent.call.w);
      } else {
        V2GovernExact(s, sent.sender, sent.call);
      }
  }

  /** Over every mixed run: if any of the six maps changed, some call was a write its sender was authorised to make
      by the settings that the calls before it had left. */
  lemma {:induction false} DataChangedByAuthorised(s: V2, calls: seq<MixedCall>) returns (n: nat)
    requires !SameData(s, MixedRun(s, calls))
    ensures n < |calls| && AuthorisedWrite(s.self, SettingsAfter(s.self, SettingsOf(s), calls[..n]), calls[n])
    decreases |calls|
  {
    hide MixedStep, AuthorisedWrite, SettingsAfter;
    var init, c := calls[..|calls| - 1], calls[|calls| - 1];
    assert calls == init + [c];
    MixedRunSnoc(s, init, c);
    SettingsFromCalls(s, init);
    n := |calls| - 1;
    if !AuthorisedWrite(s.self, SettingsAfter(s.self, SettingsOf(s), init), c) {
      UnauthorisedKeepsData(MixedRun(s, init), c);
      n := DataChangedByAuthorised(s, init);
      assert init[..n] == calls[..n];
    }
  }
}
