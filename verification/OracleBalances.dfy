/** Last-height-wins balances: what a run leaves for each (user, tick), and when order matters. */
module OracleBalances {
  import opened Clarity
  import opened Registry
  import opened Oracle
  import opened OracleRuns

  predicate Touches(t: SignedTx, key: BalanceKey) {
    t.tx.tick == key.tick && (t.tx.from == key.user || t.tx.to == key.user)
  }

  /** The balance an event reports for the user; for a transfer to oneself, the receiver's. */
  function AmountFor(t: SignedTx, key: BalanceKey): nat {
    if t.tx.to == key.user then t.tx.toBal else t.tx.fromBal
  }

  function Balances(m: map<BalanceKey, Balance>, ts: seq<SignedTx>): map<BalanceKey, Balance>
    decreases |ts|
  {
    if ts == [] then m else ApplyBalance(Balances(m, ts[..|ts| - 1]), ts[|ts| - 1])
  }

  /** The greatest submitted height of the events that touch the key; 0 when there is none. */
  function MaxHeight(ts: seq<SignedTx>, key: BalanceKey): nat {
    if ts == [] then 0
    else
      var rest, t := MaxHeight(ts[..|ts| - 1], key), ts[|ts| - 1];
      if Touches(t, key) && t.block.height > rest then t.block.height else rest
  }

  lemma ApplyAt(m: map<BalanceKey, Balance>, t: SignedTx, key: BalanceKey)
    ensures BalanceOrDefault(ApplyBalance(m, t), key) ==
      if Touches(t, key) && t.block.height > BalanceOrDefault(m, key).upToBlock
      then Balance(AmountFor(t, key), t.block.height) else BalanceOrDefault(m, key)
  {
  }

  lemma {:induction false} MaxHeightBounds(ts: seq<SignedTx>, key: BalanceKey, i: nat)
    requires i < |ts| && Touches(ts[i], key)
    ensures ts[i].block.height <= MaxHeight(ts, key)
  {
    if i < |ts| - 1 {
      MaxHeightBounds(ts[..|ts| - 1], key, i);
    }
  }

  /** `w` is the first event of greatest height that touches the key. */
  ghost predicate FirstTop(ts: seq<SignedTx>, key: BalanceKey, w: nat) {
    && w < |ts| && Touches(ts[w], key) && ts[w].block.height == MaxHeight(ts, key)
    && forall j :: 0 <= j < w && Touches(ts[j], key) ==> ts[j].block.height < MaxHeight(ts, key)
  }

  /** The entry after any list of events, ties included: untouched unless some height is greater, and then
      what the first event of greatest height reports. */
  lemma {:induction false} BalanceClosedForm(m: map<BalanceKey, Balance>, ts: seq<SignedTx>, key: BalanceKey)
    returns (w: nat)
    ensures var e, e0, top := BalanceOrDefault(Balances(m, ts), key), BalanceOrDefault(m, key), MaxHeight(ts, key);
      && (top <= e0.upToBlock ==> e == e0)
      && (top > e0.upToBlock ==> FirstTop(ts, key, w) && e == Balance(AmountFor(ts[w], key), top))
    decreases |ts|
  {
    hide ApplyBalance;
    w := 0;
    if ts != [] {
      var init, t := ts[..|ts| - 1], ts[|ts| - 1];
      w := BalanceClosedForm(m, init, key);
      ApplyAt(Balances(m, init), t, key);
      var top := MaxHeight(init, key);
      if Touches(t, key) && t.block.height > top {
        w := |ts| - 1;
        forall j | 0 <= j < w && Touches(ts[j], key) ensures ts[j].block.height < t.block.height {
          assert init[j] == ts[j];
          MaxHeightBounds(init, key, j);
        }
      } else if top > BalanceOrDefault(m, key).upToBlock {
        assert ts[w] == init[w];
        assert forall j :: 0 <= j < w ==> ts[j] == init[j];
      }
    }
  }

  /** up-to-block is the greater of the old one and the greatest submitted height, so it never decreases. */
  lemma UpToBlockIsMax(m: map<BalanceKey, Balance>, ts: seq<SignedTx>, key: BalanceKey)
    ensures var before, top := BalanceOrDefault(m, key).upToBlock, MaxHeight(ts, key);
      BalanceOrDefault(Balances(m, ts), key).upToBlock == if top > before then top else before
  {
    var w := BalanceClosedForm(m, ts, key);
  }

  // ---------- reordering ----------

  lemma {:induction false} TopAttained(ts: seq<SignedTx>, key: BalanceKey) returns (i: nat)
    requires MaxHeight(ts, key) > 0
    ensures i < |ts| && Touches(ts[i], key) && ts[i].block.height == MaxHeight(ts, key)
  {
    i := |ts| - 1;
    if !(Touches(ts[i], key) && ts[i].block.height == MaxHeight(ts, key)) {
      i := TopAttained(ts[..|ts| - 1], key);
    }
  }

  lemma MaxHeightReordered(ts: seq<SignedTx>, us: seq<SignedTx>, key: BalanceKey)
    requires multiset(ts) == multiset(us)
    ensures MaxHeight(ts, key) <= MaxHeight(us, key)
  {
    if MaxHeight(ts, key) > 0 {
      var i := TopAttained(ts, key);
      assert ts[i] in multiset(us);
      var j :| 0 <= j < |us| && us[j] == ts[i];
      MaxHeightBounds(us, key, j);
    }
  }

  /** All events of greatest height for the key report the same amount. */
  ghost predicate AgreeAtTop(ts: seq<SignedTx>, key: BalanceKey) {
    forall i, j :: 0 <= i < |ts| && 0 <= j < |ts| && AtTop(ts, key, i) && AtTop(ts, key, j) ==>
      AmountFor(ts[i], key) == AmountFor(ts[j], key)
  }

  ghost predicate AtTop(ts: seq<SignedTx>, key: BalanceKey, i: nat)
    requires i < |ts|
  {
    Touches(ts[i], key) && ts[i].block.height == MaxHeight(ts, key)
  }

  /** Convergence: any reordering gives the same up-to-block, and the same entry when the events of
      greatest height agree - in particular when no two events of the key share a height. */
  lemma {:induction false} ReorderConverges(m: map<BalanceKey, Balance>, ts: seq<SignedTx>, us: seq<SignedTx>,
                                            key: BalanceKey)
    requires multiset(ts) == multiset(us)
    ensures BalanceOrDefault(Balances(m, ts), key).upToBlock == BalanceOrDefault(Balances(m, us), key).upToBlock
    ensures AgreeAtTop(ts, key) ==> BalanceOrDefault(Balances(m, ts), key) == BalanceOrDefault(Balances(m, us), key)
  {
    hide Balances, MaxHeight;
    MaxHeightReordered(ts, us, key);
    MaxHeightReordered(us, ts, key);
    var w := BalanceClosedForm(m, ts, key);
    var v := BalanceClosedForm(m, us, key);
    if MaxHeight(ts, key) > BalanceOrDefault(m, key).upToBlock {
      assert us[v] in multiset(ts);
      var i :| 0 <= i < |ts| && ts[i] == us[v];
      assert AtTop(ts, key, i) && AtTop(ts, key, w);
    }
  }

  lemma DistinctHeightsAgree(ts: seq<SignedTx>, key: BalanceKey)
    requires forall i, j :: 0 <= i < j < |ts| && Touches(ts[i], key) && Touches(ts[j], key) ==>
      ts[i].block.height != ts[j].block.height
    ensures AgreeAtTop(ts, key)
  {
  }

  /** Any event of greatest height decides the balance once it is moved to the front. */
  lemma TopFirstDecides(m: map<BalanceKey, Balance>, ts: seq<SignedTx>, key: BalanceKey, i: nat)
    requires i < |ts| && AtTop(ts, key, i) && MaxHeight(ts, key) > BalanceOrDefault(m, key).upToBlock
    ensures var us := [ts[i]] + (ts[..i] + ts[i + 1..]);
      multiset(us) == multiset(ts) && BalanceOrDefault(Balances(m, us), key).balance == AmountFor(ts[i], key)
  {
    hide Balances, MaxHeight;
    var us := [ts[i]] + (ts[..i] + ts[i + 1..]);
    assert ts == ts[..i] + ([ts[i]] + ts[i + 1..]);
    MaxHeightReordered(ts, us, key);
    MaxHeightReordered(us, ts, key);
    var w := BalanceClosedForm(m, us, key);
    assert us[0] == ts[i];
  }

  /** When order matters, exactly: every reordering gives the same entry if and only if nothing is newer
      than the old entry or the events of greatest height agree on the amount. */
  lemma {:induction false} OrderMattersExactly(m: map<BalanceKey, Balance>, ts: seq<SignedTx>, key: BalanceKey)
    ensures (forall us :: multiset(us) == multiset(ts) ==>
               BalanceOrDefault(Balances(m, us), key) == BalanceOrDefault(Balances(m, ts), key))
       <==> MaxHeight(ts, key) <= BalanceOrDefault(m, key).upToBlock || AgreeAtTop(ts, key)
  {
    hide Balances, MaxHeight, BalanceOrDefault;
    if MaxHeight(ts, key) <= BalanceOrDefault(m, key).upToBlock || AgreeAtTop(ts, key) {
      forall us | multiset(us) == multiset(ts)
        ensures BalanceOrDefault(Balances(m, us), key) == BalanceOrDefault(Balances(m, ts), key)
      {
        ReorderConverges(m, ts, us, key);
        MaxHeightReordered(ts, us, key);
        MaxHeightReordered(us, ts, key);
        var w := BalanceClosedForm(m, ts, key);
        var v := BalanceClosedForm(m, us, key);
      }
    } else {
      var i, j :| 0 <= i < |ts| && 0 <= j < |ts| && AtTop(ts, key, i) && AtTop(ts, key, j)
                  && AmountFor(ts[i], key) != AmountFor(ts[j], key);
      TopFirstDecides(m, ts, key, i);
      TopFirstDecides(m, ts, key, j);
    }
  }

  // ---------- over runs of the contract ----------

  function Events(log: seq<Commit>): (ts: seq<SignedTx>)
    ensures |ts| == |log|
  {
    seq(|log|, i requires 0 <= i < |log| => log[i].signed)
  }

  lemma {:induction false} BalancesCons(m: map<BalanceKey, Balance>, t: SignedTx, ts: seq<SignedTx>)
    ensures Balances(m, [t] + ts) == Balances(ApplyBalance(m, t), ts)
    decreases |ts|
  {
    hide ApplyBalance;
    if ts == [] {
      assert [t] + [] == [t] && [t][..0] == [];
    } else {
      assert ([t] + ts)[..|ts|] == [t] + ts[..|ts| - 1];
      BalancesCons(m, t, ts[..|ts| - 1]);
    }
  }

  lemma {:induction false} ReplayBalances(env: Env, l: Ledger, log: seq<Commit>)
    ensures Replay(env, l, log).balances == Balances(l.balances, Events(log))
    decreases |log|
  {
    hide ApplyBalance, ApplyMined, ApplyPairs;
    if log != [] {
      ReplayBalances(env, ApplyEvent(env, l, log[0].signed), log[1..]);
      assert Events(log) == [log[0].signed] + Events(log[1..]);
      BalancesCons(l.balances, log[0].signed, Events(log[1..]));
    }
  }

  /** After any run the balances are those of the successful events, applied in order; up-to-block is the
      maximum of the old one and their greatest submitted height. */
  lemma {:induction false} RunBalances(env: Env, s: State, calls: seq<Sent>, key: BalanceKey)
    ensures var ts, before := Events(Log(env, s, calls)), BalanceOrDefault(s.registry.balances, key).upToBlock;
      && Run(env, s, calls).registry.balances == Balances(s.registry.balances, ts)
      && BalanceOrDefault(Run(env, s, calls).registry.balances, key).upToBlock
         == if MaxHeight(ts, key) > before then MaxHeight(ts, key) else before
  {
    hide Run, Log, Replay, Balances, MaxHeight;
    RunReplays(env, s, calls);
    ReplayBalances(env, LedgerOf(s), Log(env, s, calls));
    UpToBlockIsMax(s.registry.balances, Events(Log(env, s, calls)), key);
  }

  /** From an empty registry, in closed form: a user whom no event above height 0 touches has balance 0 up to block 0,
      any other what the first event of greatest height reports, up to that height. */
  lemma {:induction false} BalanceFromNothing(env: Env, s: State, calls: seq<Sent>, key: BalanceKey) returns (w: nat)
    requires s.registry.balances == map[]
    ensures var ts, top := Events(Log(env, s, calls)), MaxHeight(Events(Log(env, s, calls)), key);
      BalanceOrDefault(Run(env, s, calls).registry.balances, key) ==
        if top == 0 then Balance(0, 0)
        else if !FirstTop(ts, key, w) then Balance(0, 0)
        else Balance(if ts[w].tx.to == key.user then ts[w].tx.toBal else ts[w].tx.fromBal, top)
    ensures var ts := Events(Log(env, s, calls)); MaxHeight(ts, key) > 0 ==> FirstTop(ts, key, w)
  {
    hide Run, Log, Balances, MaxHeight, FirstTop;
    RunBalances(env, s, calls, key);
    w := BalanceClosedForm(s.registry.balances, Events(Log(env, s, calls)), key);
    assert FirstTop(Events(Log(env, s, calls)), key, w) ==> w < |Events(Log(env, s, calls))| by {
      FirstTopInRange(Events(Log(env, s, calls)), key, w);
    }
  }

  lemma FirstTopInRange(ts: seq<SignedTx>, key: BalanceKey, w: nat)
    ensures FirstTop(ts, key, w) ==> w < |ts|
  {
  }

  /** Two runs from states with the same balances, whose successful events are the same up to order, end with
      the same up-to-block for every key, and with the same entry when the events of greatest height agree. */
  lemma {:induction false} RunsConverge(env: Env, s: State, calls: seq<Sent>, s': State, calls': seq<Sent>,
                                        key: BalanceKey)
    requires s.registry.balances == s'.registry.balances
    requires multiset(Events(Log(env, s, calls))) == multiset(Events(Log(env, s', calls')))
    ensures var a, b := Run(env, s, calls).registry.balances, Run(env, s', calls').registry.balances;
      && BalanceOrDefault(a, key).upToBlock == BalanceOrDefault(b, key).upToBlock
      && (AgreeAtTop(Events(Log(env, s, calls)), key) ==> BalanceOrDefault(a, key) == BalanceOrDefault(b, key))
  {
    hide Run, Log, Events, Balances, AgreeAtTop;
    RunBalances(env, s, calls, key);
    RunBalances(env, s', calls', key);
    ReorderConverges(s.registry.balances, Events(Log(env, s, calls)), Events(Log(env, s', calls')), key);
  }
}
