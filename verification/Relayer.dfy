/** The relayer: choosing the most-voted order hash of a row, classifying and packaging the rows, and
    cutting the packages into batches for the contract. */
module Relayer {
  import opened Clarity
  import opened Registry
  import opened Oracle
  import opened OracleRuns
  import opened OracleTheorems
  import opened ProofsTable
  import Merkle
  import Mined

  const TX_MAX_LENGTH: nat := 8192
  const CHUNK_SIZE: nat := 25

  /** Longest list of signature packs index-tx-many takes for one event. */
  const MAX_PACKS: nat := 10

  /** A row of indexer.txs that is not yet submitted, with the proofs that share its id. */
  datatype PendingTx = PendingTx(key: IndexKey, tx: TxRow, proofs: seq<ProofRow>)

  // ---------- getMajorityProofs ----------

  /** One more vote for `h`; a hash seen for the first time goes to the end, as in an insertion-ordered object. */
  function Bump(counts: seq<(Bytes, nat)>, h: Bytes): seq<(Bytes, nat)> {
    if counts == [] then [(h, 1)]
    else if counts[0].0 == h then [(h, counts[0].1 + 1)] + counts[1..]
    else [counts[0]] + Bump(counts[1..], h)
  }

  function CountBy(proofs: seq<ProofRow>): seq<(Bytes, nat)> {
    if proofs == [] then [] else Bump(CountBy(proofs[..|proofs| - 1]), proofs[|proofs| - 1].orderHash)
  }

  /** Stable insertion sort by falling count. */
  function Insert(x: (Bytes, nat), sorted: seq<(Bytes, nat)>): seq<(Bytes, nat)> {
    if sorted == [] || sorted[0].1 <= x.1 then [x] + sorted else [sorted[0]] + Insert(x, sorted[1..])
  }

  function SortByCount(counts: seq<(Bytes, nat)>): seq<(Bytes, nat)> {
    if counts == [] then [] else Insert(counts[0], SortByCount(counts[1..]))
  }

  function WithHash(proofs: seq<ProofRow>, h: Bytes): seq<ProofRow> {
    if proofs == [] then []
    else (if proofs[0].orderHash == h then [proofs[0]] else []) + WithHash(proofs[1..], h)
  }

  function GetMajorityProofs(proofs: seq<ProofRow>, minimal: nat): Option<seq<ProofRow>> {
    var count := SortByCount(CountBy(proofs));
    if count == [] || count[0].1 < minimal then None else Some(WithHash(proofs, count[0].0))
  }

  // ---------- what the majority is ----------

  function Votes(proofs: seq<ProofRow>, h: Bytes): nat {
    |WithHash(proofs, h)|
  }

  /** Position of the first proof for `h`; the length when there is none. */
  function FirstVote(proofs: seq<ProofRow>, h: Bytes): nat {
    if proofs == [] || proofs[0].orderHash == h then 0 else 1 + FirstVote(proofs[1..], h)
  }

  /** `h` has the most votes, and among the hashes with as many its first vote comes first. */
  ghost predicate Winner(proofs: seq<ProofRow>, h: Bytes) {
    && Votes(proofs, h) >= 1
    && forall g :: Votes(proofs, g) <= Votes(proofs, h)
                   && (Votes(proofs, g) == Votes(proofs, h) ==> FirstVote(proofs, h) <= FirstVote(proofs, g))
  }

  function Place(counts: seq<(Bytes, nat)>, h: Bytes): nat {
    if counts == [] || counts[0].0 == h then 0 else 1 + Place(counts[1..], h)
  }

  lemma {:induction false} BumpForm(counts: seq<(Bytes, nat)>, h: Bytes)
    ensures var k := Place(counts, h);
      if k < |counts| then counts[k].0 == h && Bump(counts, h) == counts[k := (h, counts[k].1 + 1)]
      else Bump(counts, h) == counts + [(h, 1)] && forall i :: 0 <= i < |counts| ==> counts[i].0 != h
  {
    if counts != [] && counts[0].0 != h {
      BumpForm(counts[1..], h);
      var k := Place(counts[1..], h);
      if k < |counts| - 1 {
        assert counts[k + 1 := (h, counts[k + 1].1 + 1)] == [counts[0]] + counts[1..][k := (h, counts[k + 1].1 + 1)];
      } else {
        assert forall i :: 0 < i < |counts| ==> counts[i] == counts[1..][i - 1];
        assert [counts[0]] + (counts[1..] + [(h, 1)]) == counts + [(h, 1)];
      }
    }
  }

  lemma {:induction false} WithHashSnoc(proofs: seq<ProofRow>, p: ProofRow, h: Bytes)
    ensures WithHash(proofs + [p], h) == WithHash(proofs, h) + (if p.orderHash == h then [p] else [])
    decreases |proofs|
  {
    if proofs == [] {
      assert [] + [p] == [p];
      assert WithHash([], h) == [];
    } else {
      var head, last := if proofs[0].orderHash == h then [proofs[0]] else [], if p.orderHash == h then [p] else [];
      WithHashSnoc(proofs[1..], p, h);
      WithHashCons(proofs[0], proofs[1..] + [p], h);
      assert proofs + [p] == [proofs[0]] + (proofs[1..] + [p]);
      assert head + (WithHash(proofs[1..], h) + last) == head + WithHash(proofs[1..], h) + last;
    }
  }

  lemma WithHashCons(p: ProofRow, rest: seq<ProofRow>, h: Bytes)
    ensures WithHash([p] + rest, h) == (if p.orderHash == h then [p] else []) + WithHash(rest, h)
  {
    assert ([p] + rest)[1..] == rest;
  }

  lemma {:induction false} FirstVoteSnoc(proofs: seq<ProofRow>, p: ProofRow, h: Bytes)
    ensures FirstVote(proofs + [p], h) ==
      if FirstVote(proofs, h) < |proofs| || p.orderHash == h then FirstVote(proofs, h) else |proofs| + 1
    ensures FirstVote(proofs, h) <= |proofs|
    decreases |proofs|
  {
    if proofs != [] {
      assert (proofs + [p])[0] == proofs[0] && (proofs + [p])[1..] == proofs[1..] + [p];
      FirstVoteSnoc(proofs[1..], p, h);
    }
  }

  lemma {:induction false} FirstVoteExists(proofs: seq<ProofRow>, h: Bytes)
    ensures FirstVote(proofs, h) <= |proofs|
    ensures FirstVote(proofs, h) < |proofs| <==> Votes(proofs, h) >= 1
  {
    if proofs != [] {
      FirstVoteExists(proofs[1..], h);
    }
  }

  /** A tally: one entry per hash voted for, with its votes, in order of first vote. */
  ghost predicate Tallied(proofs: seq<ProofRow>, counts: seq<(Bytes, nat)>) {
    && (forall i :: 0 <= i < |counts| ==> counts[i].1 == Votes(proofs, counts[i].0) && counts[i].1 >= 1)
    && (forall i, j :: 0 <= i < j < |counts| ==> FirstVote(proofs, counts[i].0) < FirstVote(proofs, counts[j].0))
    && (forall h :: Votes(proofs, h) >= 1 ==> exists i :: 0 <= i < |counts| && counts[i].0 == h)
  }

  lemma NothingTallied()
    ensures Tallied([], [])
  {
  }

  lemma {:induction false} CountByTallies(proofs: seq<ProofRow>)
    ensures Tallied(proofs, CountBy(proofs))
    decreases |proofs|
  {
    hide Tallied, Bump, Place;
    if proofs == [] {
      NothingTallied();
    } else {
      var init, p := proofs[..|proofs| - 1], proofs[|proofs| - 1];
      assert proofs == init + [p];
      CountByTallies(init);
      BumpForm(CountBy(init), p.orderHash);
      var k := Place(CountBy(init), p.orderHash);
      if k < |CountBy(init)| {
        OldHashTallies(init, p, CountBy(init), k);
      } else {
        NewHashTallies(init, p, CountBy(init));
      }
    }
  }

  lemma VoteSnoc(init: seq<ProofRow>, p: ProofRow, g: Bytes)
    ensures Votes(init + [p], g) == Votes(init, g) + (if g == p.orderHash then 1 else 0)
    ensures Votes(init, g) >= 1 ==> FirstVote(init + [p], g) == FirstVote(init, g) < |init|
    ensures Votes(init, g) == 0 ==> FirstVote(init + [p], g) >= |init|
  {
    WithHashSnoc(init, p, g);
    FirstVoteSnoc(init, p, g);
    FirstVoteExists(init, g);
  }

  lemma OldHashTallies(init: seq<ProofRow>, p: ProofRow, counts: seq<(Bytes, nat)>, k: nat)
    requires Tallied(init, counts) && k < |counts| && counts[k].0 == p.orderHash
    ensures Tallied(init + [p], counts[k := (p.orderHash, counts[k].1 + 1)])
  {
    hide Votes, FirstVote;
    var proofs, counts' := init + [p], counts[k := (p.orderHash, counts[k].1 + 1)];
    assert forall i :: 0 <= i < |counts| ==> counts'[i].0 == counts[i].0;
    forall i | 0 <= i < |counts'|
      ensures counts'[i].1 == Votes(proofs, counts'[i].0) && counts'[i].1 >= 1
      ensures FirstVote(proofs, counts'[i].0) == FirstVote(init, counts[i].0)
    {
      VoteSnoc(init, p, counts[i].0);
      if i != k {
        assert FirstVote(init, counts[i].0) != FirstVote(init, counts[k].0);
      }
    }
    forall g | Votes(proofs, g) >= 1 ensures exists i :: 0 <= i < |counts'| && counts'[i].0 == g {
      VoteSnoc(init, p, g);
      var i :| 0 <= i < |counts| && counts[i].0 == g;
      assert counts'[i].0 == g;
    }
  }

  lemma {:induction false} NewHashTallies(init: seq<ProofRow>, p: ProofRow, counts: seq<(Bytes, nat)>)
    requires Tallied(init, counts) && forall i :: 0 <= i < |counts| ==> counts[i].0 != p.orderHash
    ensures Tallied(init + [p], counts + [(p.orderHash, 1)])
  {
    hide Votes, FirstVote;
    var proofs, counts' := init + [p], counts + [(p.orderHash, 1)];
    assert Votes(init, p.orderHash) == 0;
    forall i | 0 <= i < |counts|
      ensures counts'[i].1 == Votes(proofs, counts'[i].0) && counts'[i].1 >= 1
      ensures FirstVote(proofs, counts'[i].0) == FirstVote(init, counts[i].0) < |init|
    {
      VoteSnoc(init, p, counts[i].0);
    }
    VoteSnoc(init, p, p.orderHash);
    forall g | Votes(proofs, g) >= 1 ensures exists i :: 0 <= i < |counts'| && counts'[i].0 == g {
      VoteSnoc(init, p, g);
      if g == p.orderHash {
        assert counts'[|counts|].0 == g;
      } else {
        var i :| 0 <= i < |counts| && counts[i].0 == g;
        assert counts'[i].0 == g;
      }
    }
  }

  /** The head of the sorted tally is its first entry of greatest count. */
  lemma {:induction false} SortHead(counts: seq<(Bytes, nat)>) returns (m: nat)
    requires counts != []
    ensures SortByCount(counts) != [] && m < |counts| && SortByCount(counts)[0] == counts[m]
    ensures forall i :: 0 <= i < |counts| ==> counts[i].1 <= counts[m].1
    ensures forall i :: 0 <= i < m ==> counts[i].1 < counts[m].1
  {
    m := 0;
    if |counts| > 1 {
      var k := SortHead(counts[1..]);
      assert forall i :: 0 < i < |counts| ==> counts[i] == counts[1..][i - 1];
      if counts[0].1 < counts[k + 1].1 {
        m := k + 1;
      }
    }
  }

  /** The majority, exactly: none when no hash has the minimal number of votes (or there are no proofs),
      otherwise all proofs of the winning hash. */
  lemma MajorityExact(proofs: seq<ProofRow>, minimal: nat) returns (h: Bytes)
    ensures GetMajorityProofs(proofs, minimal).None? <==> proofs == [] || forall g :: Votes(proofs, g) < minimal
    ensures GetMajorityProofs(proofs, minimal).Some? ==>
      && GetMajorityProofs(proofs, minimal).value == WithHash(proofs, h)
      && Winner(proofs, h)
      && Votes(proofs, h) >= minimal
  {
    hide WithHash, FirstVote, SortByCount;
    h := [];
    var counts := CountBy(proofs);
    CountByTallies(proofs);
    if proofs == [] {
      SortNothing();
    } else {
      h := proofs[|proofs| - 1].orderHash;
      FirstTallied(proofs);
      var m := SortHead(counts);
      h := counts[m].0;
      forall g ensures Votes(proofs, g) <= Votes(proofs, h)
               ensures Votes(proofs, g) == Votes(proofs, h) ==> FirstVote(proofs, h) <= FirstVote(proofs, g) {
        if Votes(proofs, g) >= 1 {
          var i :| 0 <= i < |counts| && counts[i].0 == g;
        }
      }
    }
  }

  lemma SortNothing()
    ensures CountBy([]) == [] && SortByCount([]) == []
  {
  }

  lemma FirstTallied(proofs: seq<ProofRow>)
    requires proofs != []
    ensures CountBy(proofs) != []
  {
  }

  // ---------- one row ----------

  /** What the relayer reads from the chain (the index and hash-tx) and from its settings. */
  datatype Config = Config(minimal: nat, maximum: nat, isIndexed: IndexKey -> bool, hashTx: Event -> Hash32)

  datatype Class =
    HashTooLong | AlreadyIndexed | Waiting | Disagreement | ServerHashMismatch | Packaged(input: SignedTx)

  function EventOf(row: PendingTx, p: ProofRow): Event {
    p.event.(bitcoinTx := row.key.txHash, output := row.key.output, offset := row.key.offset)
  }

  function PackOf(p: ProofRow): SignaturePack {
    SignaturePack(p.signer, p.orderHash, p.signature)
  }

  function PacksOf(proofs: seq<ProofRow>): seq<SignaturePack> {
    seq(|proofs|, i requires 0 <= i < |proofs| => PackOf(proofs[i]))
  }

  function PackageOf(row: PendingTx, majority: seq<ProofRow>): SignedTx
    requires majority != []
  {
    SignedTx(EventOf(row, majority[0]), Mined.Block(row.tx.header, row.tx.height),
             Merkle.Proof(row.tx.txIndex, row.tx.proofHashes, row.tx.treeDepth), PacksOf(majority))
  }

  function Classify(cfg: Config, row: PendingTx): Class {
    if |row.key.txHash| > TX_MAX_LENGTH then HashTooLong
    else if cfg.isIndexed(row.key) then AlreadyIndexed
    else
      var majority := GetMajorityProofs(row.proofs, cfg.minimal);
      if majority.None? then (if |row.proofs| != cfg.maximum then Waiting else Disagreement)
      else if majority.value == [] then Disagreement  // never: the winning hash has a vote
      else if cfg.hashTx(EventOf(row, majority.value[0])) != majority.value[0].orderHash then ServerHashMismatch
      else Packaged(PackageOf(row, majority.value))
  }

  lemma {:induction false} WithHashAll(proofs: seq<ProofRow>, h: Bytes)
    ensures forall i :: 0 <= i < |WithHash(proofs, h)| ==> WithHash(proofs, h)[i].orderHash == h
  {
    if proofs != [] {
      WithHashAll(proofs[1..], h);
    }
  }

  /** A packaged row carries all proofs of the winning hash, at least the minimal number, every pack's hash
      is the hash of the packaged event, and the block and proof are the row's own. */
  lemma {:induction false} PackagedAgrees(cfg: Config, row: PendingTx) returns (h: Bytes)
    requires Classify(cfg, row).Packaged?
    ensures var t := Classify(cfg, row).input;
      && Winner(row.proofs, h)
      && t.packs == PacksOf(WithHash(row.proofs, h))
      && |t.packs| == Votes(row.proofs, h) >= cfg.minimal
      && cfg.hashTx(t.tx) == h
      && (forall i :: 0 <= i < |t.packs| ==> t.packs[i].txHash == cfg.hashTx(t.tx))
      && WithHash(row.proofs, h) != [] && t.tx == ReportedEvent(row, WithHash(row.proofs, h)[0])
      && t.block == Mined.Block(row.tx.header, row.tx.height)
      && t.proof == Merkle.Proof(row.tx.txIndex, row.tx.proofHashes, row.tx.treeDepth)
      && |row.key.txHash| <= TX_MAX_LENGTH && !cfg.isIndexed(KeyOf(t.tx))
  {
    hide GetMajorityProofs, WithHash, Winner;
    h := MajorityExact(row.proofs, cfg.minimal);
    WithHashAll(row.proofs, h);
  }

  /** Short enough, and not yet in the contract's index. */
  predicate IsOpen(cfg: Config, row: PendingTx) {
    |row.key.txHash| <= 8192 && !cfg.isIndexed(row.key)
  }

  /** No hash has enough votes. */
  ghost predicate Undecided(cfg: Config, row: PendingTx) {
    row.proofs == [] || forall g :: Votes(row.proofs, g) < cfg.minimal
  }

  /** The event of the row, with what proof `p` says about it. */
  function ReportedEvent(row: PendingTx, p: ProofRow): Event {
    Event(row.key.txHash, row.key.output, row.key.offset, p.event.tick, p.event.amt, p.event.from, p.event.to,
          p.event.fromBal, p.event.toBal, p.event.decimals)
  }

  /** `h` is the most-voted hash, and the event its first proof reports hashes to it. */
  ghost predicate Confirmed(cfg: Config, row: PendingTx, h: Bytes) {
    && Winner(row.proofs, h) && WithHash(row.proofs, h) != []
    && cfg.hashTx(ReportedEvent(row, WithHash(row.proofs, h)[0])) == h
  }

  /** Every outcome of a row, exactly, from the row itself: too long; indexed already; undecided, with proofs still
      to come or all in; decided, with the event hashing to the winning hash or not. */
  lemma {:induction false} OutcomeExact(cfg: Config, row: PendingTx) returns (h: Bytes)
    ensures !Undecided(cfg, row) ==> Winner(row.proofs, h)
    ensures var c, open, undecided := Classify(cfg, row), IsOpen(cfg, row), Undecided(cfg, row);
      && (c.HashTooLong? <==> |row.key.txHash| > 8192)
      && (c.AlreadyIndexed? <==> |row.key.txHash| <= 8192 && cfg.isIndexed(row.key))
      && (c.Waiting? <==> open && undecided && |row.proofs| != cfg.maximum)
      && (c.Disagreement? <==> open && undecided && |row.proofs| == cfg.maximum)
      && (c.ServerHashMismatch? <==> open && !undecided && !Confirmed(cfg, row, h))
      && (c.Packaged? <==> open && !undecided && Confirmed(cfg, row, h))
  {
    hide GetMajorityProofs, WithHash, Winner;
    h := MajorityExact(row.proofs, cfg.minimal);
    WithHashAll(row.proofs, h);
    if GetMajorityProofs(row.proofs, cfg.minimal).Some? {
      WinnerVotes(row.proofs, h);
      assert EventOf(row, WithHash(row.proofs, h)[0]) == ReportedEvent(row, WithHash(row.proofs, h)[0]);
    }
  }

  lemma WinnerVotes(proofs: seq<ProofRow>, h: Bytes)
    requires Winner(proofs, h)
    ensures WithHash(proofs, h) != []
  {
  }

  // ---------- the gate of the proofs table ----------

  /** The proofs of the row stand in table `p` and share the row's id. */
  ghost predicate JoinedFrom(hashing: Hashing, p: seq<ProofRow>, row: PendingTx) {
    forall i :: 0 <= i < |row.proofs| ==>
      && row.proofs[i] in p
      && TxKey(hashing, row.proofs[i].event) == hashing.txsId(row.key.txHash, row.key.output, row.key.offset)
  }

  /** Two keys with one id in indexer.txs. */
  ghost predicate TxIdCollision(hashing: Hashing, a: IndexKey, b: IndexKey) {
    a != b && hashing.txsId(a.txHash, a.output, a.offset) == hashing.txsId(b.txHash, b.output, b.offset)
  }

  /** Behind the gate of the proofs table the relayer's own hash check never fails - or proof `n` of the row is for
      another transaction with the row's id. */
  lemma {:induction false} GateExcludesMismatch(hashing: Hashing, p: seq<ProofRow>, txs: map<Bytes, TxRow>, cfg: Config,
                                                row: PendingTx)
    returns (n: nat)
    requires Gated(hashing, p, txs) && JoinedFrom(hashing, p, row) && cfg.hashTx == hashing.hashTx
    ensures || !Classify(cfg, row).ServerHashMismatch?
            || (n < |row.proofs| && TxIdCollision(hashing, row.key, KeyOf(row.proofs[n].event)))
  {
    hide GetMajorityProofs, WithHash, Winner;
    n := 0;
    if Classify(cfg, row).ServerHashMismatch? {
      var h := MajorityExact(row.proofs, cfg.minimal);
      var proof := WithHash(row.proofs, h)[0];
      WithHashFrom(row.proofs, h, 0);
      n :| 0 <= n < |row.proofs| && row.proofs[n] == proof;
      assert row.key == KeyOf(proof.event) ==> EventOf(row, proof) == proof.event;
    }
  }

  lemma {:induction false} WithHashFrom(proofs: seq<ProofRow>, h: Bytes, i: nat)
    requires i < |WithHash(proofs, h)|
    ensures WithHash(proofs, h)[i] in proofs
    decreases |proofs|
  {
    var mine := if proofs[0].orderHash == h then 1 else 0;
    if i >= mine {
      WithHashFrom(proofs[1..], h, i - mine);
    }
  }

  // ---------- what the contract makes of a package ----------

  /** The contract's own check of a package, both ways, in terms of the row's proofs: enough of them for the
      winning hash, from pairwise different signers, each registered, recovering to its key over the event and
      not used before - besides the mined check and the registry's gate. The relayer counts proofs, not signers,
      so distinctness is not implied. */
  lemma {:induction false} PackagePassesExactly(cfg: Config, row: PendingTx, env: Env, s: State) returns (h: Bytes)
    requires Classify(cfg, row).Packaged? && env.hashTx == cfg.hashTx
    ensures Winner(row.proofs, h)
    ensures var t, voters := Classify(cfg, row).input, WithHash(row.proofs, h);
      IndexTx(env, s, t).Ok? <==>
        && |voters| >= s.required
        && (row.key.txHash in s.registry.mined || env.verifyMined(row.key.txHash, t.block, t.proof).Ok?)
        && (forall i, j :: 0 <= i < j < |voters| ==> voters[i].signer != voters[j].signer)
        && (forall i :: 0 <= i < |voters| ==> VoteCounts(env, s, h, voters[i]))
        && MayWrite(s.registry, env.self)
  {
    hide Classify, Winner, WithHash, IndexTx, MayWrite;
    h := PackagedAgrees(cfg, row);
    var t, voters := Classify(cfg, row).input, WithHash(row.proofs, h);
    IndexTxExact(env, s, t);
    WithHashAll(row.proofs, h);
    PacksCount(env, s, h, voters);
  }

  /** The proof's signer is registered, its signature recovers to the signer's key, and the pair is unused. */
  ghost predicate VoteCounts(env: Env, s: State, h: Bytes, p: ProofRow) {
    && p.signer in s.validators
    && env.recover(DomainMessage(env, h), p.signature) == Some(s.validators[p.signer])
    && (h, p.signer) !in s.validatedBy
  }

  lemma {:induction false} PacksCount(env: Env, s: State, h: Bytes, voters: seq<ProofRow>)
    requires forall i :: 0 <= i < |voters| ==> voters[i].orderHash == h
    ensures (AllSigned(env, s.validators, h, PacksOf(voters)) && Pairs(h, PacksOf(voters)) !! s.validatedBy)
       <==> (&& (forall i, j :: 0 <= i < j < |voters| ==> voters[i].signer != voters[j].signer)
             && (forall i :: 0 <= i < |voters| ==> VoteCounts(env, s, h, voters[i])))
  {
    var packs := PacksOf(voters);
    assert forall i :: 0 <= i < |voters| ==> packs[i] == PackOf(voters[i]);
    assert DistinctSigners(packs) <==> forall i, j :: 0 <= i < j < |voters| ==> voters[i].signer != voters[j].signer;
    if forall i :: 0 <= i < |voters| ==> VoteCounts(env, s, h, voters[i]) {
      forall i | 0 <= i < |voters| ensures PackValid(env, s.validators, h, packs[i]) {
        assert VoteCounts(env, s, h, voters[i]);
      }
    }
    if AllSigned(env, s.validators, h, packs) && Pairs(h, packs) !! s.validatedBy {
      forall i | 0 <= i < |voters| ensures VoteCounts(env, s, h, voters[i]) {
        assert PackValid(env, s.validators, h, packs[i]) && (h, packs[i].signer) in Pairs(h, packs);
      }
    }
  }

  /** One signer with two proofs of the winning hash sinks the whole batch: from every state, a batch that
      contains the package fails and changes nothing. */
  lemma {:induction false} RepeatedSignerSinksBatch(cfg: Config, row: PendingTx, env: Env, s: State, sender: Principal,
                                                    batch: seq<SignedTx>, n: nat, h: Bytes, i: nat, j: nat)
    requires Classify(cfg, row).Packaged? && n < |batch| && batch[n] == Classify(cfg, row).input
    requires Winner(row.proofs, h) && i < j < |WithHash(row.proofs, h)|
    requires WithHash(row.proofs, h)[i].signer == WithHash(row.proofs, h)[j].signer
    ensures After(env, s, Oracle.Sent(sender, IndexMany(batch))) == s
  {
    hide Classify, Winner, WithHash, IndexTxs;
    var g := PackagedAgrees(cfg, row);
    WinnerUnique(row.proofs, g, h);
    var packs := batch[n].packs;
    assert !DistinctSigners(packs) by {
      assert packs[i].signer == packs[j].signer;
    }
    if IndexTxMany(env, s, sender, batch).Ok? {
      BatchDistinct(env, s, batch, n);
    }
  }

  lemma {:induction false} BatchDistinct(env: Env, s: State, batch: seq<SignedTx>, n: nat)
    requires IndexTxs(env, s, batch).Ok? && n < |batch|
    ensures DistinctSigners(batch[n].packs)
  {
    hide IndexTxs, Replay, LogAllowed, LedgerOf;
    BatchReplays(env, s, batch);
    LogMeetsQuorum(env, LedgerOf(s), CommitAll(s, batch), n);
  }

  lemma {:induction false} WinnerUnique(proofs: seq<ProofRow>, g: Bytes, h: Bytes)
    requires Winner(proofs, g) && Winner(proofs, h)
    ensures g == h
  {
    hide WithHash;
    FirstVoteExists(proofs, g);
    FirstVoteExists(proofs, h);
    FirstVoteHash(proofs, g);
    FirstVoteHash(proofs, h);
  }

  lemma {:induction false} FirstVoteHash(proofs: seq<ProofRow>, h: Bytes)
    requires FirstVote(proofs, h) < |proofs|
    ensures proofs[FirstVote(proofs, h)].orderHash == h
    decreases |proofs|
  {
    if proofs[0].orderHash != h {
      FirstVoteHash(proofs[1..], h);
    }
  }

  // ---------- when a package can be sent at all ----------

  predicate IsUint(n: nat) {
    n <= MAX_UINT
  }

  /** The declared argument types of index-tx-many in oracle-v1-06, the revision the relayer calls; up to v1-04
      the transaction may have 4096 bytes only. */
  predicate EventTyped(e: Event) {
    && |e.bitcoinTx| <= TX_MAX_LENGTH && |e.tick| <= 4 && |e.from| <= 128 && |e.to| <= 128
    && IsUint(e.output) && IsUint(e.offset) && IsUint(e.amt)
    && IsUint(e.fromBal) && IsUint(e.toBal) && IsUint(e.decimals)
  }

  predicate PackTyped(pack: SignaturePack) {
    |pack.txHash| <= 32 && |pack.signature| <= 65
  }

  predicate Encodable(t: SignedTx) {
    && EventTyped(t.tx) && |t.block.header| <= 80 && IsUint(t.block.height)
    && Merkle.ProofTyped(t.proof) && IsUint(t.proof.treeDepth)
    && |t.packs| <= MAX_PACKS && forall i :: 0 <= i < |t.packs| ==> PackTyped(t.packs[i])
  }

  /** The columns of the row fit their types; the length of the transaction is checked by the relayer itself. */
  predicate RowTyped(row: PendingTx) {
    && IsUint(row.key.output) && IsUint(row.key.offset)
    && |row.tx.header| <= 80 && IsUint(row.tx.height) && IsUint(row.tx.treeDepth)
    && Merkle.ProofTyped(Merkle.Proof(row.tx.txIndex, row.tx.proofHashes, row.tx.treeDepth))
  }

  predicate ProofEventTyped(p: ProofRow) {
    && |p.event.tick| <= 4 && |p.event.from| <= 128 && |p.event.to| <= 128
    && IsUint(p.event.amt) && IsUint(p.event.fromBal) && IsUint(p.event.toBal) && IsUint(p.event.decimals)
  }

  /** Exactly when a package fits the argument of index-tx-many. The columns aside, it is the number of winning
      proofs: the relayer takes all of them, and the list of packs holds ten. */
  lemma {:induction false} PackageFitsExactly(cfg: Config, row: PendingTx) returns (h: Bytes)
    requires Classify(cfg, row).Packaged?
    ensures Winner(row.proofs, h)
    ensures var voters := WithHash(row.proofs, h);
      && voters != []
      && (Encodable(Classify(cfg, row).input) <==>
            && |voters| <= 10 && RowTyped(row) && ProofEventTyped(voters[0])
            && forall i :: 0 <= i < |voters| ==> |voters[i].signature| <= 65)
  {
    hide GetMajorityProofs, WithHash, Winner, IsUint;
    h := MajorityExact(row.proofs, cfg.minimal);
    WithHashAll(row.proofs, h);
    var voters, t := WithHash(row.proofs, h), Classify(cfg, row).input;
    assert t.packs == PacksOf(voters) && t.tx == EventOf(row, voters[0]);
    assert forall i :: 0 <= i < |voters| ==> t.packs[i] == PackOf(voters[i]) && voters[i].orderHash == h;
    assert h == cfg.hashTx(t.tx);
  }

  // ---------- the order-hash check cannot fail ----------

  lemma {:induction false} NoOrderHashMismatch(env: Env, s: State, packs: seq<SignaturePack>)
    requires forall i :: 0 <= i < |packs| ==> packs[i].txHash == s.txHashToIter
    ensures ValidateSignatures(env, s, packs) != Err(ERR_ORDER_HASH_MISMATCH)
    decreases |packs|
  {
    if packs != [] && ValidateTx(env, s, s.txHashToIter, packs[0]).Ok? {
      NoOrderHashMismatch(env, s.(validatedBy := s.validatedBy + {(s.txHashToIter, packs[0].signer)}), packs[1..]);
    }
  }

  /** The contract's mined check is the Bitcoin library's, on mainnet or elsewhere. */
  ghost predicate ChecksMined(env: Env, chain: Mined.Chain, mainnet: bool) {
    forall tx, block, proof :: env.verifyMined(tx, block, proof) == Mined.VerifyMined(chain, mainnet, tx, block, proof)
  }

  lemma MinedCodes(chain: Mined.Chain, mainnet: bool, tx: Bytes, block: Mined.Block, proof: Merkle.Proof)
    ensures Mined.VerifyMined(chain, mainnet, tx, block, proof) != Err(ERR_ORDER_HASH_MISMATCH)
  {
    hide Mined.WasTxMined, Mined.WasSegwitTxMined;
  }

  lemma WriteCodes(env: Env, s: State, t: SignedTx, fromBal: Balance, toBal: Balance)
    ensures WriteEvent(env, s, t, fromBal, toBal) != Err(ERR_ORDER_HASH_MISMATCH)
  {
    hide V1Apply;
  }

  lemma {:induction false} EventNeverMismatches(env: Env, chain: Mined.Chain, mainnet: bool, s: State, t: SignedTx)
    requires ChecksMined(env, chain, mainnet)
    requires forall i :: 0 <= i < |t.packs| ==> t.packs[i].txHash == env.hashTx(t.tx)
    ensures IndexTx(env, s, t) != Err(ERR_ORDER_HASH_MISMATCH)
  {
    hide ValidateSignatures, WriteEvent;
    MinedCodes(chain, mainnet, t.tx.bitcoinTx, t.block, t.proof);
    if RecordMined(env, s, t).Ok? {
      var s1 := RecordMined(env, s, t).value.(txHashToIter := env.hashTx(t.tx));
      NoOrderHashMismatch(env, s1, t.packs);
      if ValidateSignatures(env, s1, t.packs).Ok? {
        WriteCodes(env, ValidateSignatures(env, s1, t.packs).value, t,
                   BalanceOrDefault(s.registry.balances, BalanceKey(t.tx.from, t.tx.tick)),
                   BalanceOrDefault(s.registry.balances, BalanceKey(t.tx.to, t.tx.tick)));
      }
    }
  }

  lemma {:induction false} EventsNeverMismatch(env: Env, chain: Mined.Chain, mainnet: bool, s: State, ts: seq<SignedTx>)
    requires ChecksMined(env, chain, mainnet)
    requires forall k, i :: 0 <= k < |ts| && 0 <= i < |ts[k].packs| ==> ts[k].packs[i].txHash == env.hashTx(ts[k].tx)
    ensures IndexTxs(env, s, ts) != Err(ERR_ORDER_HASH_MISMATCH)
    decreases |ts|
  {
    hide IndexTx;
    if ts != [] {
      EventNeverMismatches(env, chain, mainnet, s, ts[0]);
      if IndexTx(env, s, ts[0]).Ok? {
        EventsNeverMismatch(env, chain, mainnet, IndexTx(env, s, ts[0]).value, ts[1..]);
      }
    }
  }

  ghost predicate IsPackage(cfg: Config, rows: seq<PendingTx>, t: SignedTx) {
    exists n :: 0 <= n < |rows| && Classify(cfg, rows[n]) == Packaged(t)
  }

  /** Everything in the batch is the package of one of the rows. */
  ghost predicate PackagesOf(cfg: Config, rows: seq<PendingTx>, batch: seq<SignedTx>) {
    forall t :: t in batch ==> IsPackage(cfg, rows, t)
  }

  /** For every batch of packages, every caller and every state, index-tx-many never answers
      ERR-ORDER-HASH-MISMATCH. */
  lemma {:induction false} BatchNeverMismatches(cfg: Config, rows: seq<PendingTx>, env: Env, chain: Mined.Chain,
                                                mainnet: bool, s: State, sender: Principal, batch: seq<SignedTx>)
    requires PackagesOf(cfg, rows, batch) && env.hashTx == cfg.hashTx && ChecksMined(env, chain, mainnet)
    ensures IndexTxMany(env, s, sender, batch) != Err(ERR_ORDER_HASH_MISMATCH)
  {
    hide Classify, IndexTxs, ChecksMined;
    forall k, i | 0 <= k < |batch| && 0 <= i < |batch[k].packs|
      ensures batch[k].packs[i].txHash == env.hashTx(batch[k].tx)
    {
      assert IsPackage(cfg, rows, batch[k]);
      var n :| 0 <= n < |rows| && Classify(cfg, rows[n]) == Packaged(batch[k]);
      var h := PackagedAgrees(cfg, rows[n]);
    }
    EventsNeverMismatch(env, chain, mainnet, s, batch);
  }

  // ---------- one pass ----------

  predicate IsIndexed(c: Class) {
    c.AlreadyIndexed?
  }

  predicate IsWaiting(c: Class) {
    c.Waiting?
  }

  predicate IsError(c: Class) {
    c.HashTooLong? || c.Disagreement? || c.ServerHashMismatch?
  }

  function Inputs(cfg: Config, rows: seq<PendingTx>): seq<SignedTx> {
    if rows == [] then []
    else
      var c := Classify(cfg, rows[|rows| - 1]);
      Inputs(cfg, rows[..|rows| - 1]) + if c.Packaged? then [c.input] else []
  }

  function KeysOf(cfg: Config, rows: seq<PendingTx>, wanted: Class -> bool): seq<IndexKey> {
    if rows == [] then []
    else
      var row := rows[|rows| - 1];
      KeysOf(cfg, rows[..|rows| - 1], wanted) + if wanted(Classify(cfg, row)) then [row.key] else []
  }

  function Flatten<T>(xss: seq<seq<T>>): seq<T> {
    if xss == [] then [] else xss[0] + Flatten(xss[1..])
  }

  /** lodash `chunk`. */
  function Chunk<T>(xs: seq<T>, size: nat): seq<seq<T>>
    requires size > 0
  {
    if |xs| <= size then (if xs == [] then [] else [xs]) else [xs[..size]] + Chunk(xs[size..], size)
  }

  lemma {:induction false} ChunkFits<T>(xs: seq<T>, size: nat)
    requires size > 0
    ensures Flatten(Chunk(xs, size)) == xs
    ensures forall i :: 0 <= i < |Chunk(xs, size)| ==> 1 <= |Chunk(xs, size)[i]| <= size
    ensures forall i :: 0 <= i < |Chunk(xs, size)| - 1 ==> |Chunk(xs, size)[i]| == size
    decreases |xs|
  {
    if |xs| > size {
      ChunkFits(xs[size..], size);
      assert Chunk(xs, size)[1..] == Chunk(xs[size..], size);
      assert xs == xs[..size] + xs[size..];
    } else if xs != [] {
      assert [xs][1..] == [];
      assert Flatten([xs]) == xs + Flatten([xs][1..]);
    }
  }

  /** One pass over the pending rows; the batches are what is queued for index-tx-many. */
  method SyncOnce(cfg: Config, rows: seq<PendingTx>)
    returns (indexedTxs: seq<IndexKey>, txErrors: seq<IndexKey>, waiting: seq<IndexKey>, batches: seq<seq<SignedTx>>)
    ensures indexedTxs == KeysOf(cfg, rows, IsIndexed)
    ensures txErrors == KeysOf(cfg, rows, IsError)
    ensures waiting == KeysOf(cfg, rows, IsWaiting)
    ensures Flatten(batches) == Inputs(cfg, rows)
    ensures forall i :: 0 <= i < |batches| ==> 1 <= |batches[i]| <= 25 && PackagesOf(cfg, rows, batches[i])
    ensures |indexedTxs| + |txErrors| + |waiting| + |Flatten(batches)| == |rows|
    ensures forall key :: key in indexedTxs <==>
      exists row :: row in rows && row.key == key && |key.txHash| <= 8192 && cfg.isIndexed(key)
    ensures forall key :: key in waiting <==> exists row :: row in rows && row.key == key && Waits(cfg, row)
    ensures forall key :: key in txErrors <==> exists row :: row in rows && row.key == key && Fails(cfg, row)
  {
    hide Classify, PackagesOf;
    var txManyInputs: seq<SignedTx> := [];
    indexedTxs, txErrors, waiting := [], [], [];
    for n := 0 to |rows|
      invariant indexedTxs == KeysOf(cfg, rows[..n], IsIndexed)
      invariant txErrors == KeysOf(cfg, rows[..n], IsError)
      invariant waiting == KeysOf(cfg, rows[..n], IsWaiting)
      invariant txManyInputs == Inputs(cfg, rows[..n])
      invariant |indexedTxs| + |txErrors| + |waiting| + |txManyInputs| == n
    {
      var row := rows[n];
      assert rows[..n + 1][..n] == rows[..n] && rows[..n + 1][n] == row;
      var c := Classify(cfg, row);
      match c {
        case AlreadyIndexed => indexedTxs := indexedTxs + [row.key];
        case Waiting => waiting := waiting + [row.key];
        case Packaged(input) => txManyInputs := txManyInputs + [input];
        case HashTooLong => txErrors := txErrors + [row.key];
        case Disagreement => txErrors := txErrors + [row.key];
        case ServerHashMismatch => txErrors := txErrors + [row.key];
      }
    }
    assert rows[..|rows|] == rows;
    batches := Chunk(txManyInputs, CHUNK_SIZE);
    ChunkFits(txManyInputs, CHUNK_SIZE);
    BatchesHoldPackages(cfg, rows, batches);
    ListsExact(cfg, rows);
  }

  /** Open and undecided, with proofs still to come. */
  ghost predicate Waits(cfg: Config, row: PendingTx) {
    IsOpen(cfg, row) && Undecided(cfg, row) && |row.proofs| != cfg.maximum
  }

  /** Too long, or all proofs in without a decision, or decided for a hash that is not the event's. */
  ghost predicate Fails(cfg: Config, row: PendingTx) {
    || |row.key.txHash| > 8192
    || (IsOpen(cfg, row) && Undecided(cfg, row) && |row.proofs| == cfg.maximum)
    || (IsOpen(cfg, row) && !Undecided(cfg, row) && exists h :: Winner(row.proofs, h) && !Confirmed(cfg, row, h))
  }

  lemma {:induction false} KeysOfExact(cfg: Config, rows: seq<PendingTx>, wanted: Class -> bool, key: IndexKey)
    ensures key in KeysOf(cfg, rows, wanted) <==>
      exists row :: row in rows && row.key == key && wanted(Classify(cfg, row))
    decreases |rows|
  {
    hide Classify;
    if rows != [] {
      var init, last := rows[..|rows| - 1], rows[|rows| - 1];
      assert rows == init + [last];
      KeysOfExact(cfg, init, wanted, key);
    }
  }

  /** The lists keep the order of the rows: those of two lists of rows, one after the other, are their own lists one
      after the other, and a single row contributes one entry or none. */
  lemma {:induction false} ListsInOrder(cfg: Config, a: seq<PendingTx>, b: seq<PendingTx>, wanted: Class -> bool)
    ensures Inputs(cfg, a + b) == Inputs(cfg, a) + Inputs(cfg, b)
    ensures KeysOf(cfg, a + b, wanted) == KeysOf(cfg, a, wanted) + KeysOf(cfg, b, wanted)
    ensures |a| == 1 ==> Inputs(cfg, a) == if Classify(cfg, a[0]).Packaged? then [Classify(cfg, a[0]).input] else []
    ensures |a| == 1 ==> KeysOf(cfg, a, wanted) == if wanted(Classify(cfg, a[0])) then [a[0].key] else []
    decreases |b|
  {
    hide Classify;
    if |a| == 1 {
      assert a[..0] == [];
      assert Inputs(cfg, []) == [] && KeysOf(cfg, [], wanted) == [];
    }
    if b == [] {
      assert a + b == a;
    } else {
      var init, last := b[..|b| - 1], b[|b| - 1];
      ListsInOrder(cfg, a, init, wanted);
      assert (a + b)[..|a + b| - 1] == a + init && (a + b)[|a + b| - 1] == last;
    }
  }

  lemma {:induction false} RowOutcome(cfg: Config, row: PendingTx)
    ensures IsIndexed(Classify(cfg, row)) <==> |row.key.txHash| <= 8192 && cfg.isIndexed(row.key)
    ensures IsWaiting(Classify(cfg, row)) <==> Waits(cfg, row)
    ensures IsError(Classify(cfg, row)) <==> Fails(cfg, row)
  {
    hide Classify, Winner, Confirmed, Undecided;
    var h := OutcomeExact(cfg, row);
    if g :| Winner(row.proofs, g) && !Confirmed(cfg, row, g) && !Undecided(cfg, row) {
      WinnerUnique(row.proofs, g, h);
    }
  }

  lemma {:induction false} ListsExact(cfg: Config, rows: seq<PendingTx>)
    ensures forall key :: key in KeysOf(cfg, rows, IsIndexed) <==>
      exists row :: row in rows && row.key == key && |key.txHash| <= 8192 && cfg.isIndexed(key)
    ensures forall key :: key in KeysOf(cfg, rows, IsWaiting) <==>
      exists row :: row in rows && row.key == key && Waits(cfg, row)
    ensures forall key :: key in KeysOf(cfg, rows, IsError) <==>
      exists row :: row in rows && row.key == key && Fails(cfg, row)
  {
    hide Classify, KeysOf, Waits, Fails;
    forall row: PendingTx
      ensures IsIndexed(Classify(cfg, row)) <==> |row.key.txHash| <= 8192 && cfg.isIndexed(row.key)
      ensures IsWaiting(Classify(cfg, row)) <==> Waits(cfg, row)
      ensures IsError(Classify(cfg, row)) <==> Fails(cfg, row)
    {
      RowOutcome(cfg, row);
    }
    forall key: IndexKey
      ensures key in KeysOf(cfg, rows, IsIndexed) <==>
        exists row :: row in rows && row.key == key && IsIndexed(Classify(cfg, row))
      ensures key in KeysOf(cfg, rows, IsWaiting) <==>
        exists row :: row in rows && row.key == key && IsWaiting(Classify(cfg, row))
      ensures key in KeysOf(cfg, rows, IsError) <==>
        exists row :: row in rows && row.key == key && IsError(Classify(cfg, row))
    {
      KeysOfExact(cfg, rows, IsIndexed, key);
      KeysOfExact(cfg, rows, IsWaiting, key);
      KeysOfExact(cfg, rows, IsError, key);
    }
  }

  lemma {:induction false} InputsArePackages(cfg: Config, rows: seq<PendingTx>)
    ensures PackagesOf(cfg, rows, Inputs(cfg, rows))
    decreases |rows|
  {
    hide Classify;
    if rows != [] {
      var init, all := rows[..|rows| - 1], Inputs(cfg, rows);
      InputsArePackages(cfg, init);
      forall t | t in all ensures IsPackage(cfg, rows, t) {
        if t in Inputs(cfg, init) {
          assert IsPackage(cfg, init, t);
          var n :| 0 <= n < |init| && Classify(cfg, init[n]) == Packaged(t);
          assert rows[n] == init[n];
        } else {
          assert Classify(cfg, rows[|rows| - 1]) == Packaged(t);
        }
      }
    }
  }

  lemma {:induction false} FlattenHolds<T>(xss: seq<seq<T>>, i: nat, x: T)
    requires i < |xss| && x in xss[i]
    ensures x in Flatten(xss)
  {
    if i > 0 {
      FlattenHolds(xss[1..], i - 1, x);
    }
  }

  lemma {:induction false} BatchesHoldPackages(cfg: Config, rows: seq<PendingTx>, batches: seq<seq<SignedTx>>)
    requires Flatten(batches) == Inputs(cfg, rows)
    ensures forall i :: 0 <= i < |batches| ==> PackagesOf(cfg, rows, batches[i])
  {
    hide Inputs, Flatten, IsPackage;
    InputsArePackages(cfg, rows);
    forall i | 0 <= i < |batches| ensures PackagesOf(cfg, rows, batches[i]) {
      forall t | t in batches[i] ensures IsPackage(cfg, rows, t) {
        FlattenHolds(batches, i, t);
      }
    }
  }
}
