/** The proofs table and its quorums: what may be in it, what draining a set of order hashes does to it, and
    what the records made from it say. */
module ProofsTable {
  import opened Clarity
  import opened Registry
  import opened Oracle

  /** One row of indexer.proofs; `event` holds the columns that the order hash covers. */
  datatype ProofRow = ProofRow(kind: string, orderHash: Bytes, signature: Bytes, signer: Principal, signerPubkey: Bytes,
                               event: Event, validated: bool)
  datatype TxRow = TxRow(header: Bytes, height: nat, txId: Bytes, proofHashes: seq<Bytes>, txIndex: nat, treeDepth: nat)
  datatype Record = Record(event: Event, orderHash: Bytes, txRow: TxRow, signers: seq<Principal>,
                           signerPubkeys: seq<Bytes>, signerTypes: seq<string>, signatures: seq<Bytes>)

  datatype Submission = Submission(proof: ProofRow, tx: TxRow)

  /** Hashes and decoding, as parameters: hash-tx, the id of a txs row, the unique id2 of a validated_txs
      row, the transaction id of a raw transaction and whether an address script can be encoded. */
  datatype Hashing = Hashing(hashTx: Event -> Hash32, txsId: (Bytes, nat, nat) -> Bytes,
                             recordId: (Bytes, Bytes) -> Bytes, txId: Bytes -> Option<Bytes>, encodes: Bytes -> bool)

  function TxKey(hashing: Hashing, e: Event): Bytes {
    hashing.txsId(e.bitcoinTx, e.output, e.offset)
  }

  function RecordKey(hashing: Hashing, r: Record): Bytes {
    hashing.recordId(r.event.bitcoinTx, r.orderHash)
  }

  // ---------- pending proofs and quorums ----------

  /** The unvalidated rows for an order hash. */
  function Pending(p: seq<ProofRow>, h: Bytes): set<nat> {
    set i: nat | i < |p| && !p[i].validated && p[i].orderHash == h
  }

  function Signers(p: seq<ProofRow>, h: Bytes): set<Principal> {
    set i: nat | i < |p| && !p[i].validated && p[i].orderHash == h :: p[i].signer
  }

  /** The grouped query's condition: some unvalidated row, and enough distinct signers among them. */
  predicate Quorum(p: seq<ProofRow>, minimal: nat, h: Bytes) {
    Pending(p, h) != {} && |Signers(p, h)| >= minimal
  }

  function QuorumHashes(p: seq<ProofRow>, minimal: nat): set<Bytes> {
    set i | 0 <= i < |p| && Quorum(p, minimal, p[i].orderHash) :: p[i].orderHash
  }

  lemma QuorumHashesExact(p: seq<ProofRow>, minimal: nat, h: Bytes)
    ensures h in QuorumHashes(p, minimal) <==> Quorum(p, minimal, h)
  {
    if Quorum(p, minimal, h) {
      var i :| i in Pending(p, h);
      assert Quorum(p, minimal, p[i].orderHash);
    }
  }

  /** The table with all rows of the given hashes validated. */
  function Flip(p: seq<ProofRow>, hs: set<Bytes>): seq<ProofRow> {
    seq(|p|, i requires 0 <= i < |p| => if p[i].orderHash in hs then p[i].(validated := true) else p[i])
  }

  lemma FlipFlip(p: seq<ProofRow>, a: set<Bytes>, b: set<Bytes>)
    ensures Flip(Flip(p, a), b) == Flip(p, a + b)
  {
  }

  lemma FlipNone(p: seq<ProofRow>)
    ensures Flip(p, {}) == p
  {
  }

  lemma PendingFlip(p: seq<ProofRow>, a: set<Bytes>, h: Bytes)
    ensures Pending(Flip(p, a), h) == if h in a then {} else Pending(p, h)
    ensures Signers(Flip(p, a), h) == if h in a then {} else Signers(p, h)
  {
    var q := Flip(p, a);
    assert h !in a ==> forall i :: 0 <= i < |p| && p[i].orderHash == h ==> q[i] == p[i];
    assert h !in a ==> forall i :: 0 <= i < |p| && q[i].orderHash == h ==> q[i] == p[i];
    if h !in a {
      forall v | v in Signers(p, h) ensures v in Signers(q, h) {
        var i: nat :| i < |p| && !p[i].validated && p[i].orderHash == h && p[i].signer == v;
        assert q[i].signer == v;
      }
    }
  }

  /** Hashes do not interfere: validating some leaves exactly the other quorums. */
  lemma QuorumFlip(p: seq<ProofRow>, minimal: nat, a: set<Bytes>)
    ensures QuorumHashes(Flip(p, a), minimal) == QuorumHashes(p, minimal) - a
  {
    hide Quorum, QuorumHashes, Flip;
    forall h ensures h in QuorumHashes(Flip(p, a), minimal) <==> h in QuorumHashes(p, minimal) && h !in a {
      QuorumHashesExact(p, minimal, h);
      QuorumHashesExact(Flip(p, a), minimal, h);
      QuorumAfterFlip(p, minimal, a, h);
    }
  }

  lemma QuorumAfterFlip(p: seq<ProofRow>, minimal: nat, a: set<Bytes>, h: Bytes)
    ensures Quorum(Flip(p, a), minimal, h) <==> Quorum(p, minimal, h) && h !in a
  {
    hide Flip, Pending, Signers;
    PendingFlip(p, a, h);
  }

  // ---------- signatures ----------

  /** No other unvalidated row carries the signature of row `i`. */
  ghost predicate SignatureAlone(p: seq<ProofRow>, i: nat)
    requires i < |p|
  {
    forall j :: 0 <= j < |p| && j != i && !p[j].validated ==> p[j].signature != p[i].signature
  }

  /** The signature of every unvalidated row of these hashes is unique among all unvalidated rows. */
  ghost predicate SignaturesClear(p: seq<ProofRow>, hs: set<Bytes>) {
    forall i: nat :: i < |p| && !p[i].validated && p[i].orderHash in hs ==> SignatureAlone(p, i)
  }

  function Matching(p: seq<ProofRow>, signature: Bytes): set<nat> {
    set i: nat | i < |p| && !p[i].validated && p[i].signature == signature
  }

  /** UPDATE proofs SET validated = true WHERE signature = ... */
  function MarkSignatures(p: seq<ProofRow>, signatures: set<Bytes>): seq<ProofRow> {
    seq(|p|, i requires 0 <= i < |p| => if p[i].signature in signatures then p[i].(validated := true) else p[i])
  }

  lemma MarkOne(p: seq<ProofRow>, done: set<Bytes>, s: Bytes)
    ensures MarkSignatures(MarkSignatures(p, done), {s}) == MarkSignatures(p, done + {s})
    ensures s !in done ==> Matching(MarkSignatures(p, done), s) == Matching(p, s)
  {
  }

  lemma AloneIsOne(p: seq<ProofRow>, i: nat)
    requires i < |p| && !p[i].validated
    ensures |Matching(p, p[i].signature)| == 1 <==> SignatureAlone(p, i)
  {
    var m := Matching(p, p[i].signature);
    assert i in m;
    if SignatureAlone(p, i) {
      assert m == {i};
    }
    if |m| == 1 {
      assert |m - {i}| == 0;
      forall j | 0 <= j < |p| && j != i && !p[j].validated ensures p[j].signature != p[i].signature {
        assert j !in m - {i};
      }
    }
  }

  // ---------- groups and records ----------

  /** `rows` lists exactly the unvalidated rows of `h`, each once, in some order. */
  ghost predicate IsGroup(p: seq<ProofRow>, h: Bytes, rows: seq<nat>) {
    && rows != []
    && (forall k :: 0 <= k < |rows| ==> rows[k] in Pending(p, h))
    && (forall i :: i in Pending(p, h) ==> i in rows)
    && (forall k, l :: 0 <= k < l < |rows| ==> rows[k] != rows[l])
  }

  function RecordOf(p: seq<ProofRow>, rows: seq<nat>, tx: TxRow): Record
    requires rows != [] && forall k :: 0 <= k < |rows| ==> rows[k] < |p|
  {
    Record(p[rows[0]].event, p[rows[0]].orderHash, tx,
           seq(|rows|, k requires 0 <= k < |rows| => p[rows[k]].signer),
           seq(|rows|, k requires 0 <= k < |rows| => p[rows[k]].signerPubkey),
           seq(|rows|, k requires 0 <= k < |rows| => p[rows[k]].kind),
           seq(|rows|, k requires 0 <= k < |rows| => p[rows[k]].signature))
  }

  /** Record `r` is the one made from the unvalidated rows of `h`, with the tx row of its first proof. */
  ghost predicate RecordFor(hashing: Hashing, txs: map<Bytes, TxRow>, p: seq<ProofRow>, h: Bytes, r: Record) {
    exists rows :: IsGroup(p, h, rows) && TxKey(hashing, p[rows[0]].event) in txs
                   && r == RecordOf(p, rows, txs[TxKey(hashing, p[rows[0]].event)])
  }

  /** Records for a list of distinct hashes, in order. */
  ghost predicate RecordsFor(hashing: Hashing, txs: map<Bytes, TxRow>, p: seq<ProofRow>, hs: seq<Bytes>,
                             rs: seq<Record>) {
    && |hs| == |rs|
    && (forall k, l :: 0 <= k < l < |hs| ==> hs[k] != hs[l])
    && (forall k :: 0 <= k < |hs| ==> RecordFor(hashing, txs, p, hs[k], rs[k]))
  }

  function SetOf(hs: seq<Bytes>): set<Bytes> {
    set k | 0 <= k < |hs| :: hs[k]
  }

  lemma RecordForFlip(hashing: Hashing, txs: map<Bytes, TxRow>, p: seq<ProofRow>, a: set<Bytes>, h: Bytes, r: Record)
    requires RecordFor(hashing, txs, Flip(p, a), h, r)
    ensures h !in a && RecordFor(hashing, txs, p, h, r)
  {
    var q := Flip(p, a);
    var rows :| IsGroup(q, h, rows) && TxKey(hashing, q[rows[0]].event) in txs
                && r == RecordOf(q, rows, txs[TxKey(hashing, q[rows[0]].event)]);
    PendingFlip(p, a, h);
    assert rows[0] in Pending(q, h);
    assert forall k :: 0 <= k < |rows| ==> q[rows[k]] == p[rows[k]];
    assert IsGroup(p, h, rows);
    assert RecordOf(p, rows, r.txRow) == r;
  }

  lemma RecordsAppend(hashing: Hashing, txs: map<Bytes, TxRow>, p: seq<ProofRow>, hs: seq<Bytes>, rs: seq<Record>,
                      hs': seq<Bytes>, rs': seq<Record>)
    requires RecordsFor(hashing, txs, p, hs, rs) && RecordsFor(hashing, txs, Flip(p, SetOf(hs)), hs', rs')
    ensures RecordsFor(hashing, txs, p, hs + hs', rs + rs') && SetOf(hs + hs') == SetOf(hs) + SetOf(hs')
  {
    hide RecordFor, Flip;
    var all, recs := hs + hs', rs + rs';
    forall k | 0 <= k < |all|
      ensures RecordFor(hashing, txs, p, all[k], recs[k]) && (k >= |hs| ==> all[k] !in SetOf(hs))
    {
      if k >= |hs| {
        RecordForFlip(hashing, txs, p, SetOf(hs), hs'[k - |hs|], rs'[k - |hs|]);
      }
    }
    assert SetOf(all) == SetOf(hs) + SetOf(hs') by {
      forall h | h in SetOf(hs) + SetOf(hs') ensures h in SetOf(all) {
        if h in SetOf(hs) {
          var k :| 0 <= k < |hs| && hs[k] == h;
          assert all[k] == h;
        } else {
          var k :| 0 <= k < |hs'| && hs'[k] == h;
          assert all[|hs| + k] == h;
        }
      }
    }
    forall k, l | 0 <= k < l < |all| ensures all[k] != all[l] {
      if k < |hs| <= l {
        assert all[k] in SetOf(hs);
      }
    }
  }

  // ---------- the tables ----------

  /** Every proof's order hash is the hash of its event, and the tx row of its event is there. */
  ghost predicate Gated(hashing: Hashing, p: seq<ProofRow>, txs: map<Bytes, TxRow>) {
    forall i :: 0 <= i < |p| ==>
      && hashing.hashTx(p[i].event) == p[i].orderHash
      && TxKey(hashing, p[i].event) in txs
  }

  /** The unique constraint (type, order_hash, signature, signer). */
  predicate SameProof(a: ProofRow, b: ProofRow) {
    a.kind == b.kind && a.orderHash == b.orderHash && a.signature == b.signature && a.signer == b.signer
  }

  ghost predicate UniqueProofs(p: seq<ProofRow>) {
    forall i, j :: 0 <= i < j < |p| ==> !SameProof(p[i], p[j])
  }

  /** The ids of the `added` records are pairwise different and not taken. */
  ghost predicate RecordIdsClear(hashing: Hashing, present: seq<Record>, added: seq<Record>) {
    && (forall k, l :: 0 <= k < |present| && 0 <= l < |added| ==>
          RecordKey(hashing, present[k]) != RecordKey(hashing, added[l]))
    && (forall k, l :: 0 <= k < l < |added| ==> RecordKey(hashing, added[k]) != RecordKey(hashing, added[l]))
  }

  /** Distinct hashes, each with the group of its unvalidated rows. */
  ghost predicate Grouped(p: seq<ProofRow>, keys: seq<Bytes>, batch: map<Bytes, seq<nat>>) {
    && (forall k, l :: 0 <= k < l < |keys| ==> keys[k] != keys[l])
    && (forall k :: 0 <= k < |keys| ==> keys[k] in batch && IsGroup(p, keys[k], batch[keys[k]]))
  }

  ghost predicate RecordsMade(hashing: Hashing, txs: map<Bytes, TxRow>, p: seq<ProofRow>, keys: seq<Bytes>,
                              batch: map<Bytes, seq<nat>>, records: seq<Record>) {
    && |records| == |keys|
    && (forall k :: 0 <= k < |keys| ==>
          keys[k] in batch && RecordMade(hashing, txs, p, keys[k], batch[keys[k]], records[k]))
  }

  ghost predicate RecordMade(hashing: Hashing, txs: map<Bytes, TxRow>, p: seq<ProofRow>, h: Bytes,
                             rows: seq<nat>, r: Record) {
    && IsGroup(p, h, rows) && TxKey(hashing, p[rows[0]].event) in txs
    && r == RecordOf(p, rows, txs[TxKey(hashing, p[rows[0]].event)])
  }

  lemma MadeAreFor(hashing: Hashing, txs: map<Bytes, TxRow>, p: seq<ProofRow>, keys: seq<Bytes>,
                   batch: map<Bytes, seq<nat>>, records: seq<Record>)
    requires Grouped(p, keys, batch) && RecordsMade(hashing, txs, p, keys, batch, records)
    ensures RecordsFor(hashing, txs, p, keys, records) && |records| == |keys|
  {
    hide IsGroup;
    forall k | 0 <= k < |keys| ensures RecordFor(hashing, txs, p, keys[k], records[k]) {
      assert RecordMade(hashing, txs, p, keys[k], batch[keys[k]], records[k]);
    }
  }

  lemma NothingDone(hashing: Hashing, p: seq<ProofRow>, v: seq<Record>, keys: seq<Bytes>, records: seq<Record>)
    ensures SetOf(keys[..0]) == {} && Flip(p, SetOf(keys[..0])) == p && v + records[..0] == v
    ensures SignaturesClear(p, SetOf(keys[..0])) && RecordIdsClear(hashing, v, records[..0])
  {
  }

  lemma SelectedInRange(p: seq<ProofRow>, hs: set<Bytes>, rows: seq<nat>)
    requires Selected(p, hs, rows)
    ensures forall k :: 0 <= k < |rows| ==> rows[k] < |p|
  {
  }

  /** The batch built from the selected rows is grouped, and its keys are the chosen hashes. */
  lemma BatchGrouped(p: seq<ProofRow>, minimal: nat, hs: set<Bytes>, rows: seq<nat>, keys: seq<Bytes>,
                     batch: map<Bytes, seq<nat>>)
    requires Selected(p, hs, rows) && hs <= QuorumHashes(p, minimal)
    requires forall k :: 0 <= k < |rows| ==> rows[k] < |p|
    requires forall h :: h in keys <==> h in batch
    requires forall k, l :: 0 <= k < l < |keys| ==> keys[k] != keys[l]
    requires BatchHolds(p, rows, batch)
    ensures Grouped(p, keys, batch) && SetOf(keys) == hs && |keys| == |hs|
  {
    hide Selected, QuorumHashes, RowsWith;
    forall k | 0 <= k < |keys| ensures IsGroup(p, keys[k], batch[keys[k]]) {
      assert keys[k] in batch && BatchAt(p, rows, batch, keys[k]);
      BatchGroup(p, hs, rows, keys[k]);
    }
    forall h ensures h in keys <==> RowsWith(p, rows, h) != [] {
      assert BatchAt(p, rows, batch, h);
    }
    forall h | h in hs ensures Pending(p, h) != {} {
      QuorumHashesExact(p, minimal, h);
    }
    BatchCovers(p, hs, rows, keys);
  }

  /** `rows` are exactly the unvalidated rows of these hashes, each once. */
  ghost predicate Selected(p: seq<ProofRow>, hs: set<Bytes>, rows: seq<nat>) {
    && (forall k :: 0 <= k < |rows| ==> rows[k] < |p| && !p[rows[k]].validated && p[rows[k]].orderHash in hs)
    && (forall j: nat :: j < |p| && !p[j].validated && p[j].orderHash in hs ==> j in rows)
    && (forall k, l :: 0 <= k < l < |rows| ==> rows[k] != rows[l])
  }

  function RowsWith(p: seq<ProofRow>, rows: seq<nat>, h: Bytes): seq<nat>
    requires forall k :: 0 <= k < |rows| ==> rows[k] < |p|
  {
    if rows == [] then []
    else
      var i := rows[|rows| - 1];
      RowsWith(p, rows[..|rows| - 1], h) + if p[i].orderHash == h then [i] else []
  }

  /** The entry for `h` holds the rows with that hash, and there is none when there are no such rows. */
  ghost predicate BatchAt(p: seq<ProofRow>, rows: seq<nat>, batch: map<Bytes, seq<nat>>, h: Bytes)
    requires forall k :: 0 <= k < |rows| ==> rows[k] < |p|
  {
    && RowsWith(p, rows, h) == (if h in batch then batch[h] else [])
    && (h in batch ==> batch[h] != [])
  }

  ghost predicate BatchHolds(p: seq<ProofRow>, rows: seq<nat>, batch: map<Bytes, seq<nat>>)
    requires forall k :: 0 <= k < |rows| ==> rows[k] < |p|
  {
    forall h :: BatchAt(p, rows, batch, h)
  }

  lemma BatchEmpty(p: seq<ProofRow>)
    ensures BatchHolds(p, [], map[])
  {
  }

  lemma BatchStep(p: seq<ProofRow>, rows: seq<nat>, n: nat, batch: map<Bytes, seq<nat>>)
    requires n < |rows| && forall k :: 0 <= k < |rows| ==> rows[k] < |p|
    requires BatchHolds(p, rows[..n], batch)
    ensures var h := p[rows[n]].orderHash;
      BatchHolds(p, rows[..n + 1], batch[h := if h in batch then batch[h] + [rows[n]] else [rows[n]]])
  {
    var now := rows[..n + 1];
    assert now[..n] == rows[..n];
    var key := p[rows[n]].orderHash;
    var after := batch[key := if key in batch then batch[key] + [rows[n]] else [rows[n]]];
    forall h ensures BatchAt(p, now, after, h) {
      assert BatchAt(p, rows[..n], batch, h);
    }
  }

  lemma {:induction false} RowsWithExact(p: seq<ProofRow>, rows: seq<nat>, h: Bytes)
    requires forall k :: 0 <= k < |rows| ==> rows[k] < |p|
    requires forall k, l :: 0 <= k < l < |rows| ==> rows[k] != rows[l]
    ensures var g := RowsWith(p, rows, h);
      && (forall i :: i in g <==> i in rows && p[i].orderHash == h)
      && (forall k, l :: 0 <= k < l < |g| ==> g[k] != g[l])
    decreases |rows|
  {
    if rows != [] {
      var init, i := rows[..|rows| - 1], rows[|rows| - 1];
      assert rows == init + [i];
      RowsWithExact(p, init, h);
    }
  }

  lemma BatchGroup(p: seq<ProofRow>, hs: set<Bytes>, rows: seq<nat>, h: Bytes)
    requires Selected(p, hs, rows) && RowsWith(p, rows, h) != []
    ensures IsGroup(p, h, RowsWith(p, rows, h))
  {
    RowsWithExact(p, rows, h);
    var g := RowsWith(p, rows, h);
    assert g[0] in rows && h in hs;
    forall l | 0 <= l < |g| ensures g[l] in Pending(p, h) {
      assert g[l] in rows;
    }
  }

  lemma BatchCovers(p: seq<ProofRow>, hs: set<Bytes>, rows: seq<nat>, keys: seq<Bytes>)
    requires Selected(p, hs, rows)
    requires forall h :: h in keys <==> RowsWith(p, rows, h) != []
    requires forall k, l :: 0 <= k < l < |keys| ==> keys[k] != keys[l]
    ensures SetOf(keys) <= hs && |SetOf(keys)| == |keys|
    ensures (forall h :: h in hs ==> Pending(p, h) != {}) ==> SetOf(keys) == hs
  {
    SetOfSize(keys);
    forall h | h in SetOf(keys) ensures h in hs {
      assert h in keys;
      RowsWithExact(p, rows, h);
      assert RowsWith(p, rows, h)[0] in rows;
    }
    forall h | h in hs && Pending(p, h) != {} ensures h in SetOf(keys) {
      var i :| i in Pending(p, h);
      assert i in rows;
      RowsWithExact(p, rows, h);
      assert i in RowsWith(p, rows, h);
      assert h in keys;
    }
  }

  lemma {:induction false} SetOfSize(hs: seq<Bytes>)
    requires forall k, l :: 0 <= k < l < |hs| ==> hs[k] != hs[l]
    ensures |SetOf(hs)| == |hs|
  {
    if hs != [] {
      var init := hs[..|hs| - 1];
      SetOfSize(init);
      SetOfSnoc(hs, |hs| - 1);
      assert hs[..|hs|] == hs;
      assert hs[|hs| - 1] !in SetOf(init);
    }
  }

  lemma SetOfSnoc(hs: seq<Bytes>, n: nat)
    requires n < |hs|
    ensures SetOf(hs[..n + 1]) == SetOf(hs[..n]) + {hs[n]}
  {
    var a, b := hs[..n + 1], hs[..n];
    forall h | h in SetOf(b) + {hs[n]} ensures h in SetOf(a) {
      if h == hs[n] {
        assert a[n] == h;
      } else {
        var k :| 0 <= k < |b| && b[k] == h;
        assert a[k] == h;
      }
    }
    forall h | h in SetOf(a) ensures h in SetOf(b) + {hs[n]} {
      var k :| 0 <= k < |a| && a[k] == h;
      if k < n {
        assert b[k] == h;
      }
    }
  }

  lemma FlipValid(hashing: Hashing, p: seq<ProofRow>, txs: map<Bytes, TxRow>, hs: set<Bytes>)
    requires Gated(hashing, p, txs) && UniqueProofs(p)
    ensures Gated(hashing, Flip(p, hs), txs) && UniqueProofs(Flip(p, hs))
  {
  }

  /** The rows of the next hash are still pending after the earlier ones were validated. */
  lemma NextGroup(p: seq<ProofRow>, keys: seq<Bytes>, n: nat, rows: seq<nat>)
    requires n < |keys| && IsGroup(p, keys[n], rows) && forall k, l :: 0 <= k < l < |keys| ==> keys[k] != keys[l]
    ensures IsGroup(Flip(p, SetOf(keys[..n])), keys[n], rows)
    ensures forall k :: 0 <= k < |rows| ==> rows[k] < |p| && Flip(p, SetOf(keys[..n]))[rows[k]] == p[rows[k]]
  {
    assert keys[n] !in SetOf(keys[..n]);
    PendingFlip(p, SetOf(keys[..n]), keys[n]);
    assert forall k :: 0 <= k < |rows| ==> rows[k] in Pending(p, keys[n]);
  }

  lemma NextClear(p: seq<ProofRow>, keys: seq<Bytes>, n: nat)
    requires n < |keys| && SignaturesClear(p, SetOf(keys[..n]))
    ensures SignaturesClear(Flip(p, SetOf(keys[..n])), {keys[n]}) ==> SignaturesClear(p, SetOf(keys[..n + 1]))
    ensures SetOf(keys[..n + 1]) == SetOf(keys[..n]) + {keys[n]}
  {
    SetOfSnoc(keys, n);
    if SignaturesClear(Flip(p, SetOf(keys[..n])), {keys[n]}) {
      ClearUnion(p, SetOf(keys[..n]), {keys[n]});
    }
  }

  lemma NextIds(hashing: Hashing, v: seq<Record>, records: seq<Record>, n: nat)
    requires n < |records| && RecordIdsClear(hashing, v, records[..n])
    ensures RecordIdsClear(hashing, v + records[..n], [records[n]]) <==> RecordIdsClear(hashing, v, records[..n + 1])
  {
    var a, b := records[..n], records[..n + 1];
    assert b == a + [records[n]];
    var all := v + a;
    if RecordIdsClear(hashing, all, [records[n]]) {
      assert forall k :: 0 <= k < |all| ==> RecordKey(hashing, all[k]) != RecordKey(hashing, [records[n]][0]);
      assert forall k :: 0 <= k < |v| ==> all[k] == v[k];
      assert forall k :: 0 <= k < |a| ==> all[|v| + k] == a[k];
    }
    if RecordIdsClear(hashing, v, b) {
      assert b[n] == records[n];
      assert forall k :: 0 <= k < |a| ==> b[k] == a[k];
    }
  }

  /** What a drain that handled the hashes `hs` did to the tables. */
  ghost predicate Drained(hashing: Hashing, txs: map<Bytes, TxRow>, p: seq<ProofRow>, v: seq<Record>,
                          hs: seq<Bytes>, rs: seq<Record>, p': seq<ProofRow>, v': seq<Record>) {
    && p' == Flip(p, SetOf(hs)) && v' == v + rs
    && RecordsFor(hashing, txs, p, hs, rs)
    && SignaturesClear(p, SetOf(hs)) && RecordIdsClear(hashing, v, rs)
  }

  function RowKey(hashing: Hashing, row: ProofRow): Bytes {
    hashing.recordId(row.event.bitcoinTx, row.orderHash)
  }

  /** No unvalidated row of these hashes would make a record whose id is taken, by an existing record or
      by a row of another of the hashes. */
  ghost predicate RowIdsClear(hashing: Hashing, p: seq<ProofRow>, v: seq<Record>, hs: set<Bytes>) {
    forall i: nat :: i < |p| && !p[i].validated && p[i].orderHash in hs ==>
      && (forall k :: 0 <= k < |v| ==> RecordKey(hashing, v[k]) != RowKey(hashing, p[i]))
      && (forall j: nat :: j < |p| && !p[j].validated && p[j].orderHash in hs && p[j].orderHash != p[i].orderHash ==>
            RowKey(hashing, p[j]) != RowKey(hashing, p[i]))
  }

  /** The condition under which draining these hashes does not throw; it can be checked beforehand. */
  ghost predicate AllClear(hashing: Hashing, p: seq<ProofRow>, v: seq<Record>, hs: set<Bytes>) {
    SignaturesClear(p, hs) && RowIdsClear(hashing, p, v, hs)
  }

  /** Marking the signatures of a group that stand alone validates exactly the rows of its hash. */
  lemma GroupMarked(p: seq<ProofRow>, h: Bytes, rows: seq<nat>, marked: set<Bytes>)
    requires IsGroup(p, h, rows) && (forall k :: 0 <= k < |rows| ==> SignatureAlone(p, rows[k]))
    requires marked == set k | 0 <= k < |rows| :: p[rows[k]].signature
    ensures MarkSignatures(p, marked) == Flip(p, {h}) && SignaturesClear(p, {h})
  {
    forall i: nat | i < |p| && !p[i].validated
      ensures p[i].signature in marked <==> p[i].orderHash == h
      ensures p[i].orderHash == h ==> SignatureAlone(p, i)
    {
      if p[i].orderHash == h {
        assert i in Pending(p, h);
        var k :| 0 <= k < |rows| && rows[k] == i;
        assert p[rows[k]].signature in marked;
      }
    }
    forall i | 0 <= i < |p| ensures MarkSignatures(p, marked)[i] == Flip(p, {h})[i] {
      if p[i].validated {
        assert p[i].(validated := true) == p[i];
      }
    }
  }

  /** Under AllClear the next insert of a batch goes through. */
  lemma StillClear(hashing: Hashing, txs: map<Bytes, TxRow>, p: seq<ProofRow>, v: seq<Record>, q: set<Bytes>,
                   keys: seq<Bytes>, records: seq<Record>, n: nat, batch: map<Bytes, seq<nat>>)
    requires AllClear(hashing, p, v, q) && SetOf(keys) <= q && n < |keys|
    requires Grouped(p, keys, batch) && RecordsMade(hashing, txs, p, keys, batch, records)
    ensures SignaturesClear(Flip(p, SetOf(keys[..n])), {keys[n]})
    ensures RecordIdsClear(hashing, v + records[..n], [records[n]])
  {
    hide Flip;
    assert keys[n] in SetOf(keys);
    FlipKeepsClear(p, SetOf(keys[..n]), q, keys[n]);
    var all := v + records[..n];
    var mine := FirstRow(hashing, txs, p, keys, records, batch, n);
    forall k | 0 <= k < |all| ensures RecordKey(hashing, all[k]) != RecordKey(hashing, records[n]) {
      if k < |v| {
        assert all[k] == v[k];
      } else {
        var l := k - |v|;
        assert all[k] == records[l] && keys[l] in SetOf(keys);
        var other := FirstRow(hashing, txs, p, keys, records, batch, l);
      }
    }
  }

  /** The row a record of the batch takes its event, and so its id, from. */
  lemma FirstRow(hashing: Hashing, txs: map<Bytes, TxRow>, p: seq<ProofRow>, keys: seq<Bytes>, records: seq<Record>,
                 batch: map<Bytes, seq<nat>>, k: nat) returns (i: nat)
    requires k < |keys| && Grouped(p, keys, batch) && RecordsMade(hashing, txs, p, keys, batch, records)
    ensures i < |p| && !p[i].validated && p[i].orderHash == keys[k]
    ensures RecordKey(hashing, records[k]) == RowKey(hashing, p[i])
  {
    assert RecordMade(hashing, txs, p, keys[k], batch[keys[k]], records[k]);
    i := batch[keys[k]][0];
    assert i in Pending(p, keys[k]);
  }

  lemma FlipKeepsClear(p: seq<ProofRow>, a: set<Bytes>, q: set<Bytes>, h: Bytes)
    requires SignaturesClear(p, q) && (h in q || Pending(p, h) == {})
    ensures SignaturesClear(Flip(p, a), {h})
  {
    var f := Flip(p, a);
    forall i: nat | i < |f| && !f[i].validated && f[i].orderHash == h ensures SignatureAlone(f, i) {
      assert f[i] == p[i] && i in Pending(p, h);
      assert SignatureAlone(p, i);
    }
  }

  // ---------- chaining drains ----------

  lemma NothingDrained(hashing: Hashing, txs: map<Bytes, TxRow>, p: seq<ProofRow>, v: seq<Record>)
    ensures Drained(hashing, txs, p, v, [], [], p, v) && SetOf([]) == {}
  {
    FlipNone(p);
  }

  /** What is left after a drain: the other quorums, and they are clear if all were. */
  lemma DrainLeaves(hashing: Hashing, txs: map<Bytes, TxRow>, p: seq<ProofRow>, v: seq<Record>, minimal: nat,
                    hs: seq<Bytes>, rs: seq<Record>, p': seq<ProofRow>, v': seq<Record>)
    requires Drained(hashing, txs, p, v, hs, rs, p', v')
    requires SetOf(hs) <= QuorumHashes(p, minimal)
    ensures QuorumHashes(p', minimal) == QuorumHashes(p, minimal) - SetOf(hs)
    ensures AllClear(hashing, p, v, QuorumHashes(p, minimal)) ==> AllClear(hashing, p', v', QuorumHashes(p', minimal))
  {
    hide QuorumHashes;
    QuorumFlip(p, minimal, SetOf(hs));
    if AllClear(hashing, p, v, QuorumHashes(p, minimal)) {
      LeftClear(hashing, txs, p, v, QuorumHashes(p, minimal), hs, rs, p', v');
    }
  }

  lemma LeftClear(hashing: Hashing, txs: map<Bytes, TxRow>, p: seq<ProofRow>, v: seq<Record>, q: set<Bytes>,
                  hs: seq<Bytes>, rs: seq<Record>, p': seq<ProofRow>, v': seq<Record>)
    requires Drained(hashing, txs, p, v, hs, rs, p', v') && SetOf(hs) <= q && AllClear(hashing, p, v, q)
    ensures AllClear(hashing, p', v', q - SetOf(hs))
  {
    hide RecordsFor, RecordIdsClear;
    var left := q - SetOf(hs);
    SameLength(hashing, txs, p, hs, rs);
    forall i: nat | i < |p'| && !p'[i].validated
      ensures p[i] == p'[i] && p[i].orderHash !in SetOf(hs)
    {
    }
    assert SignaturesClear(p', left) by {
      forall i: nat | i < |p'| && !p'[i].validated && p'[i].orderHash in left ensures SignatureAlone(p', i) {
        assert SignatureAlone(p, i);
      }
    }
    forall i: nat, k | i < |p'| && !p'[i].validated && p'[i].orderHash in left && 0 <= k < |v'|
      ensures RecordKey(hashing, v'[k]) != RowKey(hashing, p'[i])
    {
      if k < |v| {
        assert v'[k] == v[k];
      } else {
        var j := RecordRow(hashing, txs, p, hs, rs, k - |v|);
        assert v'[k] == rs[k - |v|] && hs[k - |v|] in SetOf(hs);
      }
    }
  }

  /** Each record takes its id from some unvalidated row of its hash. */
  lemma RecordRow(hashing: Hashing, txs: map<Bytes, TxRow>, p: seq<ProofRow>, hs: seq<Bytes>, rs: seq<Record>, k: nat)
    returns (i: nat)
    requires RecordsFor(hashing, txs, p, hs, rs) && k < |rs|
    ensures i < |p| && !p[i].validated && p[i].orderHash == hs[k] && RecordKey(hashing, rs[k]) == RowKey(hashing, p[i])
    ensures rs[k].event == p[i].event && rs[k].orderHash == hs[k]
  {
    assert RecordFor(hashing, txs, p, hs[k], rs[k]);
    var rows :| IsGroup(p, hs[k], rows) && TxKey(hashing, p[rows[0]].event) in txs
                && rs[k] == RecordOf(p, rows, txs[TxKey(hashing, p[rows[0]].event)]);
    i := rows[0];
    assert i in Pending(p, hs[k]);
  }

  lemma ClearUnion(p: seq<ProofRow>, a: set<Bytes>, b: set<Bytes>)
    requires SignaturesClear(p, a) && SignaturesClear(Flip(p, a), b)
    ensures SignaturesClear(p, a + b)
  {
    var f := Flip(p, a);
    forall i: nat | i < |p| && !p[i].validated && p[i].orderHash in a + b ensures SignatureAlone(p, i) {
      if p[i].orderHash !in a {
        assert f[i] == p[i] && SignatureAlone(f, i);
        forall j | 0 <= j < |p| && j != i && !p[j].validated ensures p[j].signature != p[i].signature {
          if p[j].orderHash in a {
            assert SignatureAlone(p, j);
          } else {
            assert f[j] == p[j];
          }
        }
      }
    }
  }

  lemma IdsUnion(hashing: Hashing, v: seq<Record>, rs: seq<Record>, rs': seq<Record>)
    requires RecordIdsClear(hashing, v, rs) && RecordIdsClear(hashing, v + rs, rs')
    ensures RecordIdsClear(hashing, v, rs + rs')
  {
    var present := v + rs;
    assert forall k :: 0 <= k < |v| ==> present[k] == v[k];
    assert forall k :: 0 <= k < |rs| ==> present[|v| + k] == rs[k];
  }

  lemma DrainMore(hashing: Hashing, txs: map<Bytes, TxRow>, p: seq<ProofRow>, v: seq<Record>, minimal: nat,
                  hs: seq<Bytes>, rs: seq<Record>, p1: seq<ProofRow>, v1: seq<Record>,
                  more: seq<Bytes>, made: seq<Record>, p2: seq<ProofRow>, v2: seq<Record>)
    requires Drained(hashing, txs, p, v, hs, rs, p1, v1) && Drained(hashing, txs, p1, v1, more, made, p2, v2)
    requires SetOf(hs) <= QuorumHashes(p, minimal) && SetOf(more) <= QuorumHashes(p1, minimal)
    ensures Drained(hashing, txs, p, v, hs + more, rs + made, p2, v2)
    ensures SetOf(hs + more) == SetOf(hs) + SetOf(more) <= QuorumHashes(p, minimal)
    ensures QuorumHashes(p2, minimal) == QuorumHashes(p1, minimal) - SetOf(more)
    ensures more != [] ==> |QuorumHashes(p2, minimal)| < |QuorumHashes(p1, minimal)|
    ensures SetOf(more) == QuorumHashes(p1, minimal) ==>
      SetOf(hs + more) == QuorumHashes(p, minimal) && QuorumHashes(p2, minimal) == {}
    ensures more == [] ==> SetOf(more) == {}
  {
    hide QuorumHashes, SignaturesClear, RecordIdsClear, RecordsFor, Flip;
    FlipFlip(p, SetOf(hs), SetOf(more));
    RecordsAppend(hashing, txs, p, hs, rs, more, made);
    ClearUnion(p, SetOf(hs), SetOf(more));
    IdsUnion(hashing, v, rs, made);
    assert v + rs + made == v + (rs + made);
    QuorumFlip(p, minimal, SetOf(hs));
    QuorumFlip(p1, minimal, SetOf(more));
    if more != [] {
      assert more[0] in SetOf(more);
      SubsetSize(QuorumHashes(p2, minimal), QuorumHashes(p1, minimal));
    }
  }

  // ---------- order-hash collisions ----------

  /** Rows with the same order hash carry the same event. */
  ghost predicate Consistent(p: seq<ProofRow>) {
    forall i, j :: 0 <= i < |p| && 0 <= j < |p| && p[i].orderHash == p[j].orderHash ==> p[i].event == p[j].event
  }

  ghost predicate OrderHashCollision(hashing: Hashing, e: Event, f: Event) {
    e != f && hashing.hashTx(e) == hashing.hashTx(f)
  }

  /** Behind the gate, rows of one order hash carry one event, or the events of rows `i` and `j` collide. */
  lemma ConsistentOrCollision(hashing: Hashing, p: seq<ProofRow>, txs: map<Bytes, TxRow>) returns (i: nat, j: nat)
    requires Gated(hashing, p, txs)
    ensures Consistent(p) || (i < |p| && j < |p| && OrderHashCollision(hashing, p[i].event, p[j].event))
  {
    i, j := 0, 0;
    if !Consistent(p) {
      i, j :| 0 <= i < |p| && 0 <= j < |p| && p[i].orderHash == p[j].orderHash && p[i].event != p[j].event;
    }
  }

  /** A drain of every quorum that went through proves that all was clear. */
  lemma DrainedIsClear(hashing: Hashing, txs: map<Bytes, TxRow>, p: seq<ProofRow>, v: seq<Record>, minimal: nat,
                       hs: seq<Bytes>, rs: seq<Record>, p': seq<ProofRow>, v': seq<Record>)
    requires Drained(hashing, txs, p, v, hs, rs, p', v') && Consistent(p) && SetOf(hs) == QuorumHashes(p, minimal)
    ensures AllClear(hashing, p, v, QuorumHashes(p, minimal))
  {
    hide RecordsFor, QuorumHashes;
    var q := QuorumHashes(p, minimal);
    SameLength(hashing, txs, p, hs, rs);
    forall i: nat | i < |p| && !p[i].validated && p[i].orderHash in q
      ensures exists k :: 0 <= k < |rs| && hs[k] == p[i].orderHash && RecordKey(hashing, rs[k]) == RowKey(hashing, p[i])
    {
      var k :| 0 <= k < |hs| && hs[k] == p[i].orderHash;
      var j := RecordRow(hashing, txs, p, hs, rs, k);
    }
    assert RowIdsClear(hashing, p, v, q);
  }

  lemma SameLength(hashing: Hashing, txs: map<Bytes, TxRow>, p: seq<ProofRow>, hs: seq<Bytes>, rs: seq<Record>)
    requires RecordsFor(hashing, txs, p, hs, rs)
    ensures |hs| == |rs|
  {
  }

  // ---------- what a record says ----------

  /** Place `k` of the record's four lists holds the columns of this row. */
  ghost predicate ListsRow(r: Record, k: nat, row: ProofRow) {
    && k < |r.signers| == |r.signerPubkeys| == |r.signerTypes| == |r.signatures|
    && r.signers[k] == row.signer && r.signerPubkeys[k] == row.signerPubkey
    && r.signerTypes[k] == row.kind && r.signatures[k] == row.signature
  }

  /** What a record says: its event hashes to its order hash, its tx row is the one under the id of that event, and
      each place of its lists holds signer, key, type and signature of one row `i` that was not yet validated and
      that is for the same event - or the event of that row collides with the record's. */
  lemma RecordAgrees(hashing: Hashing, txs: map<Bytes, TxRow>, p: seq<ProofRow>, h: Bytes, r: Record, k: nat)
    returns (i: nat)
    requires Gated(hashing, p, txs) && RecordFor(hashing, txs, p, h, r) && k < |r.signers|
    ensures r.orderHash == h == hashing.hashTx(r.event)
    ensures var id := hashing.txsId(r.event.bitcoinTx, r.event.output, r.event.offset);
      id in txs && r.txRow == txs[id]
    ensures i in Pending(p, h) && ListsRow(r, k, p[i])
    ensures p[i].event == r.event || OrderHashCollision(hashing, p[i].event, r.event)
  {
    var rows :| IsGroup(p, h, rows) && TxKey(hashing, p[rows[0]].event) in txs
                && r == RecordOf(p, rows, txs[TxKey(hashing, p[rows[0]].event)]);
    i := rows[k];
    assert rows[0] in Pending(p, h) && rows[k] in Pending(p, h);
  }

  /** And nothing is missing: every unvalidated row of the hash has its place, and there are no more places. */
  lemma {:induction false} RecordComplete(hashing: Hashing, txs: map<Bytes, TxRow>, p: seq<ProofRow>, h: Bytes,
                                          r: Record, i: nat)
    returns (k: nat)
    requires RecordFor(hashing, txs, p, h, r) && i in Pending(p, h)
    ensures ListsRow(r, k, p[i]) && |r.signers| == |Pending(p, h)|
  {
    var rows :| IsGroup(p, h, rows) && TxKey(hashing, p[rows[0]].event) in txs
                && r == RecordOf(p, rows, txs[TxKey(hashing, p[rows[0]].event)]);
    assert i in rows;
    k :| 0 <= k < |rows| && rows[k] == i;
    RowSetSize(rows);
    assert Pending(p, h) == RowSet(rows);
  }

  function RowSet(rows: seq<nat>): set<nat> {
    set i | i in rows
  }

  lemma {:induction false} RowSetSize(rows: seq<nat>)
    requires forall k, l :: 0 <= k < l < |rows| ==> rows[k] != rows[l]
    ensures |RowSet(rows)| == |rows|
  {
    if rows != [] {
      var init, last := rows[..|rows| - 1], rows[|rows| - 1];
      RowSetSize(init);
      assert rows == init + [last];
      assert RowSet(rows) == RowSet(init) + {last} && last !in RowSet(init);
    }
  }

  /** A record of a quorum hash lists at least the minimal number of different signers. */
  lemma RecordHasQuorum(hashing: Hashing, txs: map<Bytes, TxRow>, p: seq<ProofRow>, minimal: nat, h: Bytes, r: Record)
    requires RecordFor(hashing, txs, p, h, r) && h in QuorumHashes(p, minimal)
    ensures |set k | 0 <= k < |r.signers| :: r.signers[k]| >= minimal
  {
    QuorumHashesExact(p, minimal, h);
    var rows :| IsGroup(p, h, rows) && TxKey(hashing, p[rows[0]].event) in txs
                && r == RecordOf(p, rows, txs[TxKey(hashing, p[rows[0]].event)]);
    var listed := set k | 0 <= k < |r.signers| :: r.signers[k];
    forall s | s in Signers(p, h) ensures s in listed {
      var i: nat :| i < |p| && !p[i].validated && p[i].orderHash == h && p[i].signer == s;
      assert i in Pending(p, h);
      var k :| 0 <= k < |rows| && rows[k] == i;
      assert r.signers[k] == s;
    }
    SubsetSize(Signers(p, h), listed);
  }
}
