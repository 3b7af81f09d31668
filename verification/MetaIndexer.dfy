/** The API's gate into the proofs table, and the loop that drains quorums into validated records. */
module MetaIndexer {
  import opened Clarity
  import opened Oracle
  import opened ProofsTable
  import opened ProofsHistory

  /** The Map from order hash to its rows, filled row by row; `keys` is its insertion order. */
  method BuildBatch(p: seq<ProofRow>, rows: seq<nat>) returns (keys: seq<Bytes>, batch: map<Bytes, seq<nat>>)
    requires forall k :: 0 <= k < |rows| ==> rows[k] < |p|
    ensures forall h :: h in keys <==> h in batch
    ensures forall k, l :: 0 <= k < l < |keys| ==> keys[k] != keys[l]
    ensures BatchHolds(p, rows, batch)
  {
    hide BatchHolds;
    keys, batch := [], map[];
    BatchEmpty(p);
    for n := 0 to |rows|
      invariant forall h :: h in keys <==> h in batch
      invariant forall k, l :: 0 <= k < l < |keys| ==> keys[k] != keys[l]
      invariant BatchHolds(p, rows[..n], batch)
    {
      var h := p[rows[n]].orderHash;
      BatchStep(p, rows, n, batch);
      if h in batch {
        batch := batch[h := batch[h] + [rows[n]]];
      } else {
        keys := keys + [h];
        batch := batch[h := [rows[n]]];
      }
    }
    assert rows[..|rows|] == rows;
  }

  datatype Result = Done(count: nat) | Threw

  class Indexer {
    const hashing: Hashing
    const minimal: nat
    var proofs: seq<ProofRow>
    var txs: map<Bytes, TxRow>
    var validatedTxs: seq<Record>

    ghost function Snapshot(): Tables
      reads this
    {
      Tables(proofs, txs, validatedTxs)
    }

    ghost predicate Valid()
      reads this
    {
      Sound(hashing, Snapshot())
    }

    constructor (hashing: Hashing, minimal: nat)
      ensures Valid() && proofs == [] && txs == map[] && validatedTxs == []
      ensures this.hashing == hashing && this.minimal == minimal
    {
      this.hashing, this.minimal := hashing, minimal;
      proofs, txs, validatedTxs := [], map[], [];
      assert Accounted([], [], []);
    }

    /** validateOrderHash, then the two inserts in one transaction. */
    method UpsertTxWithProof(s: Submission) returns (accepted: bool)
      requires Valid()
      modifies this`proofs, this`txs
      ensures Valid() && accepted == Admitted(hashing, s)
      ensures accepted <==>
        && hashing.hashTx(s.proof.event) == s.proof.orderHash && hashing.txId(s.proof.event.bitcoinTx).Some?
        && hashing.encodes(s.proof.event.from) && hashing.encodes(s.proof.event.to)
      ensures Snapshot() == Upserted(hashing, old(Snapshot()), s)
      ensures Inserted(hashing, s, accepted, old(proofs), old(txs), proofs, txs)
      ensures Steps(hashing, minimal, old(Snapshot()), Snapshot())
    {
      hide Sound, Steps;
      ghost var before := Snapshot();
      UpsertSound(hashing, before, s);
      UpsertSteps(hashing, minimal, before, s);
      UpsertInserts(hashing, before, s);
      var e := s.proof.event;
      if hashing.hashTx(e) != s.proof.orderHash {
        return false;
      }
      var txId := hashing.txId(e.bitcoinTx);
      if txId.None? || !hashing.encodes(e.from) || !hashing.encodes(e.to) {
        return false;
      }
      var n := 0;
      while n < |proofs| && !SameProof(proofs[n], s.proof)
        invariant 0 <= n <= |proofs|
        invariant forall i :: 0 <= i < n ==> !SameProof(proofs[i], s.proof)
      {
        n := n + 1;
      }
      if n == |proofs| {
        proofs := proofs + [s.proof.(validated := false)];
      }
      var key := TxKey(hashing, e);
      if key !in txs {
        txs := txs[key := s.tx.(txId := txId.value)];
      }
      assert Snapshot() == Upserted(hashing, before, s);
      return true;
    }

    /** The update of one signature, with the number of rows it hit. */
    method MarkValidated(signature: Bytes) returns (updated: nat)
      modifies this`proofs
      ensures proofs == MarkSignatures(old(proofs), {signature})
      ensures updated == |Matching(old(proofs), signature)|
    {
      var was := proofs;
      updated := 0;
      ghost var hit: set<nat> := {};
      for i := 0 to |was|
        invariant |proofs| == |was|
        invariant proofs[..i] == MarkSignatures(was, {signature})[..i] && proofs[i..] == was[i..]
        invariant hit == set k: nat | k < i && !was[k].validated && was[k].signature == signature
        invariant updated == |hit|
      {
        if was[i].signature == signature && !was[i].validated {
          updated := updated + 1;
          proofs := proofs[i := was[i].(validated := true)];
          hit := hit + {i};
        }
        assert proofs[i] == MarkSignatures(was, {signature})[i];
      }
      assert hit == Matching(was, signature);
    }

    /** One record and its proofs. Throws - with part of the work done - when the record's id is taken or
        when a signature does not match exactly one unvalidated row. */
    method InsertValidatedTx(tx: Record, ghost h: Bytes, ghost rows: seq<nat>) returns (inserted: bool)
      requires IsGroup(proofs, h, rows) && |tx.signatures| == |rows|
      requires forall k :: 0 <= k < |rows| ==> tx.signatures[k] == proofs[rows[k]].signature
      modifies this`proofs, this`validatedTxs
      ensures inserted <==> SignaturesClear(old(proofs), {h}) && RecordIdsClear(hashing, old(validatedTxs), [tx])
      ensures inserted ==> proofs == Flip(old(proofs), {h}) && validatedTxs == old(validatedTxs) + [tx]
    {
      ghost var p := proofs;
      for n := 0 to |validatedTxs|
        invariant forall k :: 0 <= k < n ==> RecordKey(hashing, validatedTxs[k]) != RecordKey(hashing, tx)
      {
        if RecordKey(hashing, validatedTxs[n]) == RecordKey(hashing, tx) {
          assert RecordKey(hashing, validatedTxs[n]) == RecordKey(hashing, [tx][0]);
          return false;
        }
      }
      validatedTxs := validatedTxs + [tx];
      ghost var marked: set<Bytes> := {};
      assert MarkSignatures(p, {}) == p;
      for k := 0 to |tx.signatures|
        invariant proofs == MarkSignatures(p, marked) && validatedTxs == old(validatedTxs) + [tx]
        invariant marked == set l | 0 <= l < k :: tx.signatures[l]
        invariant forall l :: 0 <= l < k ==> SignatureAlone(p, rows[l])
      {
        assert rows[k] in Pending(p, h);
        assert tx.signatures[k] !in marked by {
          assert forall l :: 0 <= l < k ==> rows[l] != rows[k] && SignatureAlone(p, rows[l]);
        }
        MarkOne(p, marked, tx.signatures[k]);
        AloneIsOne(p, rows[k]);
        var updated := MarkValidated(tx.signatures[k]);
        if updated != 1 {
          return false;
        }
        marked := marked + {tx.signatures[k]};
      }
      GroupMarked(p, h, rows, marked);
      return true;
    }

    /** LIMIT: up to `size` of the quorum hashes; which ones is the database's choice. */
    method ChooseHashes(size: nat) returns (hs: set<Bytes>)
      ensures var q := QuorumHashes(proofs, minimal); hs <= q && |hs| <= size && (|hs| == size || hs == q)
    {
      var q := QuorumHashes(proofs, minimal);
      hs := {};
      while |hs| < size && hs != q
        invariant hs <= q && |hs| <= size
        decreases q - hs
      {
        assert q - hs != {} by { assert hs + (q - hs) == q; }
        var h :| h in q - hs;
        hs := hs + {h};
      }
    }

    /** The query: the unvalidated rows of the chosen hashes. */
    method SelectPending(hs: set<Bytes>) returns (rows: seq<nat>)
      ensures Selected(proofs, hs, rows)
    {
      rows := [];
      for i := 0 to |proofs|
        invariant forall k :: 0 <= k < |rows| ==>
          rows[k] < i && !proofs[rows[k]].validated && proofs[rows[k]].orderHash in hs
        invariant forall j: nat :: j < i && !proofs[j].validated && proofs[j].orderHash in hs ==> j in rows
        invariant forall k, l :: 0 <= k < l < |rows| ==> rows[k] != rows[l]
      {
        if !proofs[i].validated && proofs[i].orderHash in hs {
          rows := rows + [i];
        }
      }
    }

    method PendingBatch(size: nat) returns (keys: seq<Bytes>, batch: map<Bytes, seq<nat>>)
      ensures Grouped(proofs, keys, batch)
      ensures var q := QuorumHashes(proofs, minimal); SetOf(keys) <= q && (|keys| == size || SetOf(keys) == q)
    {
      hide QuorumHashes, Grouped, Selected, RowsWith, BatchHolds;
      var chosen := ChooseHashes(size);
      var rows := SelectPending(chosen);
      SelectedInRange(proofs, chosen, rows);
      keys, batch := BuildBatch(proofs, rows);
      BatchGrouped(proofs, minimal, chosen, rows, keys, batch);
    }

    /** A record for each group whose tx row is found; behind the gate that is every group. */
    method CollectRecords(keys: seq<Bytes>, batch: map<Bytes, seq<nat>>) returns (records: seq<Record>)
      requires Gated(hashing, proofs, txs) && Grouped(proofs, keys, batch)
      ensures RecordsMade(hashing, txs, proofs, keys, batch, records)
    {
      records := [];
      for n := 0 to |keys|
        invariant RecordsMade(hashing, txs, proofs, keys[..n], batch, records)
      {
        assert IsGroup(proofs, keys[n], batch[keys[n]]);
        var group := batch[keys[n]];
        assert group[0] in Pending(proofs, keys[n]);
        var key := TxKey(hashing, proofs[group[0]].event);
        if key !in txs {
          continue;
        }
        records := records + [RecordOf(proofs, group, txs[key])];
      }
      assert keys[..|keys|] == keys;
    }

    /** The inserts of a batch, in order; may stop half-way. */
    method InsertAll(keys: seq<Bytes>, batch: map<Bytes, seq<nat>>, records: seq<Record>, ghost q: set<Bytes>)
      returns (inserted: bool)
      requires Grouped(proofs, keys, batch) && SetOf(keys) <= q
      requires RecordsMade(hashing, txs, proofs, keys, batch, records)
      modifies this`proofs, this`validatedTxs
      ensures inserted ==>
        && proofs == Flip(old(proofs), SetOf(keys)) && validatedTxs == old(validatedTxs) + records
        && SignaturesClear(old(proofs), SetOf(keys)) && RecordIdsClear(hashing, old(validatedTxs), records)
      ensures !inserted ==> !AllClear(hashing, old(proofs), old(validatedTxs), q)
    {
      hide SignaturesClear, RecordIdsClear, AllClear, Flip, IsGroup;
      ghost var p, v := proofs, validatedTxs;
      NothingDone(hashing, p, v, keys, records);
      for n := 0 to |keys|
        invariant proofs == Flip(p, SetOf(keys[..n])) && validatedTxs == v + records[..n]
        invariant SignaturesClear(p, SetOf(keys[..n])) && RecordIdsClear(hashing, v, records[..n])
      {
        ghost var rows := batch[keys[n]];
        NextGroup(p, keys, n, rows);
        NextClear(p, keys, n);
        NextIds(hashing, v, records, n);
        if AllClear(hashing, p, v, q) {
          StillClear(hashing, txs, p, v, q, keys, records, n, batch);
        }
        inserted := InsertValidatedTx(records[n], keys[n], rows);
        if !inserted {
          return;
        }
        FlipFlip(p, SetOf(keys[..n]), {keys[n]});
        assert v + records[..n] + [records[n]] == v + records[..n + 1];
      }
      assert keys[..|keys|] == keys && records[..|keys|] == records;
      inserted := true;
    }

    /** One transaction of the drain loop: all of the batch, or nothing. */
    method ProcessPendingProofs(size: nat) returns (r: Result, ghost hs: seq<Bytes>, ghost rs: seq<Record>)
      requires Valid()
      modifies this`proofs, this`validatedTxs
      ensures Valid()
      ensures r.Threw? ==> Snapshot() == old(Snapshot())
      ensures r.Done? ==>
        && r.count == |hs| && (|hs| == size || SetOf(hs) == QuorumHashes(old(proofs), minimal))
        && DrainedTo(hashing, minimal, old(Snapshot()), hs, rs, Snapshot())
      ensures AllClear(hashing, old(proofs), old(validatedTxs), QuorumHashes(old(proofs), minimal)) ==> r.Done?
    {
      hide QuorumHashes, Gated, UniqueProofs, AllClear, SignaturesClear, RecordIdsClear, Flip, Grouped, RecordsMade,
        RecordsFor, SetOf, Accounted, RecordsGated;
      var p, v := proofs, validatedTxs;
      ghost var before := Snapshot();
      var keys, batch := PendingBatch(size);
      var records := CollectRecords(keys, batch);
      MadeAreFor(hashing, txs, p, keys, batch, records);
      hs, rs := keys, records;
      var inserted := InsertAll(keys, batch, records, QuorumHashes(p, minimal));
      if !inserted {
        proofs, validatedTxs := p, v;
        return Threw, hs, rs;
      }
      assert DrainedTo(hashing, minimal, before, hs, rs, Snapshot());
      DrainSound(hashing, minimal, before, hs, rs, Snapshot());
      return Done(|records|), hs, rs;
    }

    /** The drain loop. Whatever happens, the tables are those of a drain of some quorum hashes; it ends
        without throwing exactly when AllClear holds of the quorums there were, and then none is left. It always
        throws when one of them is late, or holds a signature that stands twice. */
    method Process(size: nat) returns (r: Result, ghost hs: seq<Bytes>, ghost rs: seq<Record>)
      requires Valid()
      modifies this`proofs, this`validatedTxs
      ensures Valid()
      ensures DrainedTo(hashing, minimal, old(Snapshot()), hs, rs, Snapshot())
      ensures Steps(hashing, minimal, old(Snapshot()), Snapshot())
      ensures r.Done? && size > 0 ==>
        SetOf(hs) == QuorumHashes(old(proofs), minimal) && QuorumHashes(proofs, minimal) == {}
      ensures AllClear(hashing, old(proofs), old(validatedTxs), QuorumHashes(old(proofs), minimal)) ==> r.Done?
      ensures size > 0 && Consistent(old(proofs)) ==>
        (r.Done? <==> AllClear(hashing, old(proofs), old(validatedTxs), QuorumHashes(old(proofs), minimal)))
      ensures size > 0 && (exists h :: Late(old(proofs), old(validatedTxs), minimal, h)) ==> r.Threw?
      ensures size > 0 && (exists i, j :: Tied(old(proofs), minimal, i, j)) ==> r.Threw?
    {
      hide QuorumHashes, Sound, AllClear, Drained, Consistent, SetOf, Flip, Late, Tied, Steps;
      ghost var p, v, q := proofs, validatedTxs, QuorumHashes(proofs, minimal);
      hs, rs := [], [];
      NothingDrained(hashing, txs, p, v);
      while true
        invariant Valid() && SetOf(hs) <= q
        invariant Drained(hashing, txs, p, v, hs, rs, proofs, validatedTxs)
        decreases |QuorumHashes(proofs, minimal)|
      {
        DrainLeaves(hashing, txs, p, v, minimal, hs, rs, proofs, validatedTxs);
        ghost var mid, midV, more, made := proofs, validatedTxs, [], [];
        r, more, made := ProcessPendingProofs(size);
        if r.Threw? {
          DrainSteps(hashing, minimal, old(Snapshot()), hs, rs, Snapshot());
          return;
        }
        DrainMore(hashing, txs, p, v, minimal, hs, rs, mid, midV, more, made, proofs, validatedTxs);
        hs, rs := hs + more, rs + made;
        if r.count == 0 {
          if size > 0 && Consistent(p) {
            DrainedIsClear(hashing, txs, p, v, minimal, hs, rs, proofs, validatedTxs);
          }
          if size > 0 {
            AllDrainedNoneLate(hashing, txs, p, v, minimal, hs, rs, proofs, validatedTxs);
            AllDrainedNoneTied(hashing, txs, p, v, minimal, hs, rs, proofs, validatedTxs);
          }
          DrainSteps(hashing, minimal, old(Snapshot()), hs, rs, Snapshot());
          return;
        }
      }
    }
  }

  /** Submits the proofs one after the other. */
  method SubmitAll(indexer: Indexer, subs: seq<Submission>)
    requires indexer.Valid() && forall i :: 0 <= i < |subs| ==> Admitted(indexer.hashing, subs[i])
    requires AllDifferent(subs)
    requires forall i, j :: 0 <= i < |indexer.proofs| && 0 <= j < |subs| ==>
      !SameProof(indexer.proofs[i], subs[j].proof)
    modifies indexer`proofs, indexer`txs
    ensures indexer.Valid() && indexer.proofs == old(indexer.proofs) + Fresh(subs)
  {
    hide Sound, Steps, Admitted;
    for n := 0 to |subs|
      invariant indexer.Valid() && indexer.proofs == old(indexer.proofs) + Fresh(subs[..n])
    {
      var p := indexer.proofs;
      assert !Holds(p, subs[n].proof);
      var accepted := indexer.UpsertTxWithProof(subs[n]);
      assert Fresh(subs[..n + 1]) == Fresh(subs[..n]) + [subs[n].proof.(validated := false)];
    }
    assert subs[..|subs|] == subs;
  }

  /** Late quorums do arise, for every event and every requirement: a quorum of signers submits, the drain makes
      the record, another quorum submits, and from then on every drain throws. */
  method LateSignersThrow(hashing: Hashing, minimal: nat, first: seq<Submission>, second: seq<Submission>,
                          ghost e: Event, size: nat)
    returns (before: Result, after: Result)
    requires size > 0 && SignaturesDiffer(first + second)
    requires QuorumFor(hashing, first, e, minimal) && QuorumFor(hashing, second, e, minimal)
    ensures before.Done? && after.Threw?
  {
    hide Sound, Steps, Drained, AllClear, QuorumHashes, Late, Tied, Admitted, SignerSet;
    var indexer := new Indexer(hashing, minimal);
    DifferentParts(first, second);
    SubmitAll(indexer, first);
    ghost var one := indexer.Snapshot();
    assert one.proofs == Fresh(first);
    FirstIsClear(hashing, first, e, minimal);
    ghost var hs, rs;
    before, hs, rs := indexer.Process(size);
    ghost var two := indexer.Snapshot();
    DrainedDiffer(hashing, minimal, first, second, one, hs, rs, two);
    SubmitAll(indexer, second);
    SecondIsLate(hashing, minimal, first, second, e, one, hs, rs, two);
    after, hs, rs := indexer.Process(size);
  }

  /** So do repeated signatures: the unique constraint lets one signature in twice, under two types or signers. */
  method RepeatedSignatureThrows(hashing: Hashing, minimal: nat, subs: seq<Submission>, ghost e: Event, ghost i: nat,
                                 ghost j: nat, size: nat)
    returns (r: Result)
    requires size > 0 && QuorumFor(hashing, subs, e, minimal) && AllDifferent(subs)
    requires i < j < |subs| && subs[i].proof.signature == subs[j].proof.signature
    ensures r.Threw?
  {
    hide Sound, Steps, Drained, AllClear, QuorumHashes, Tied, Late, Admitted, SignerSet, Fresh;
    var indexer := new Indexer(hashing, minimal);
    SubmitAll(indexer, subs);
    assert indexer.proofs == Fresh(subs);
    FreshTied(hashing, subs, e, minimal, i, j);
    ghost var hs, rs;
    r, hs, rs := indexer.Process(size);
  }
}
