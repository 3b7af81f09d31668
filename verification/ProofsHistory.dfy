/** The life of the proofs table: every sequence of submissions and drains from the empty tables, what each of
    them keeps, and the quorums that can never be drained. */
module ProofsHistory {
  import opened Clarity
  import opened Registry
  import opened Oracle
  import opened ProofsTable

  /** The tables proofs, txs and validated_txs. */
  datatype Tables = Tables(proofs: seq<ProofRow>, txs: map<Bytes, TxRow>, records: seq<Record>)

  // ---------- the two ways the tables change ----------

  /** validateOrderHash passes, and the transaction and both addresses can be decoded. */
  predicate Admitted(hashing: Hashing, s: Submission) {
    var e := s.proof.event;
    && hashing.hashTx(e) == s.proof.orderHash
    && hashing.txId(e.bitcoinTx).Some? && hashing.encodes(e.from) && hashing.encodes(e.to)
  }

  predicate Holds(p: seq<ProofRow>, row: ProofRow) {
    exists i :: 0 <= i < |p| && SameProof(p[i], row)
  }

  /** A refused submission changes nothing; a repeated proof or tx row is kept as it was. */
  function Upserted(hashing: Hashing, t: Tables, s: Submission): Tables {
    if !Admitted(hashing, s) then t
    else
      var e, key := s.proof.event, TxKey(hashing, s.proof.event);
      Tables(if Holds(t.proofs, s.proof) then t.proofs else t.proofs + [s.proof.(validated := false)],
             if key in t.txs then t.txs else t.txs[key := s.tx.(txId := hashing.txId(e.bitcoinTx).value)],
             t.records)
  }

  /** The two inserts, column by column: a proof is new unless a row has its type, order hash, signature and signer;
      a tx row is new unless its id, from transaction, output and offset, is taken. */
  ghost predicate Inserted(hashing: Hashing, s: Submission, accepted: bool, p: seq<ProofRow>, txs: map<Bytes, TxRow>,
                           p': seq<ProofRow>, txs': map<Bytes, TxRow>) {
    var row, e := s.proof, s.proof.event;
    var id := hashing.txsId(e.bitcoinTx, e.output, e.offset);
    && (!accepted ==> p' == p && txs' == txs)
    && (accepted ==>
          && p' == (if exists i :: 0 <= i < |p| && p[i].kind == row.kind && p[i].orderHash == row.orderHash
                                   && p[i].signature == row.signature && p[i].signer == row.signer
                    then p else p + [row.(validated := false)])
          && (id in txs ==> txs' == txs)
          && (id !in txs && hashing.txId(e.bitcoinTx).Some? ==>
                txs' == txs[id := s.tx.(txId := hashing.txId(e.bitcoinTx).value)]))
  }

  lemma UpsertInserts(hashing: Hashing, t: Tables, s: Submission)
    ensures var t' := Upserted(hashing, t, s);
      Inserted(hashing, s, Admitted(hashing, s), t.proofs, t.txs, t'.proofs, t'.txs) && t'.records == t.records
  {
    var p, row := t.proofs, s.proof;
    if Holds(p, row) {
      var i :| 0 <= i < |p| && SameProof(p[i], row);
      assert p[i].kind == row.kind;
    }
  }

  /** A drain that handled the quorum hashes `hs`, all of them or only some because it then threw. */
  ghost predicate DrainedTo(hashing: Hashing, minimal: nat, t: Tables, hs: seq<Bytes>, rs: seq<Record>, t': Tables) {
    && t'.txs == t.txs && SetOf(hs) <= QuorumHashes(t.proofs, minimal)
    && Drained(hashing, t.txs, t.proofs, t.records, hs, rs, t'.proofs, t'.records)
  }

  ghost predicate Steps(hashing: Hashing, minimal: nat, t: Tables, t': Tables) {
    || (exists s :: t' == Upserted(hashing, t, s))
    || (exists hs, rs :: DrainedTo(hashing, minimal, t, hs, rs, t'))
  }

  /** The tables after each call, from the empty ones on. */
  ghost predicate History(hashing: Hashing, minimal: nat, ts: seq<Tables>) {
    && ts != [] && ts[0] == Tables([], map[], [])
    && forall i :: 0 < i < |ts| ==> Steps(hashing, minimal, ts[i - 1], ts[i])
  }

  // ---------- which rows a record was made from ----------

  /** Record `r` was made from the rows `rows`, each listed once and by now validated. */
  ghost predicate MadeFrom(p: seq<ProofRow>, r: Record, rows: seq<nat>) {
    && rows != [] && (forall k :: 0 <= k < |rows| ==> rows[k] < |p| && p[rows[k]].validated)
    && (forall k, l :: 0 <= k < l < |rows| ==> rows[k] != rows[l])
    && r == RecordOf(p, rows, r.txRow)
  }

  /** `src` accounts for the records: it gives the rows each was made from, no row went into two records, and
      every validated row went into one. */
  ghost predicate Accounted(p: seq<ProofRow>, v: seq<Record>, src: seq<seq<nat>>) {
    && |src| == |v|
    && (forall m :: 0 <= m < |v| ==> MadeFrom(p, v[m], src[m]))
    && (forall m, n :: 0 <= m < n < |src| ==> Apart(src[m], src[n]))
    && (forall i :: 0 <= i < |p| && p[i].validated ==> exists m :: 0 <= m < |src| && i in src[m])
  }

  ghost predicate Apart(a: seq<nat>, b: seq<nat>) {
    forall i :: i in a ==> i !in b
  }

  /** Every record's order hash is the hash of its event. */
  ghost predicate RecordsGated(hashing: Hashing, v: seq<Record>) {
    forall k :: 0 <= k < |v| ==> hashing.hashTx(v[k].event) == v[k].orderHash
  }

  ghost predicate Sound(hashing: Hashing, t: Tables) {
    && Gated(hashing, t.proofs, t.txs) && UniqueProofs(t.proofs) && RecordsGated(hashing, t.records)
    && exists src :: Accounted(t.proofs, t.records, src)
  }

  lemma MadeFromKept(p: seq<ProofRow>, p': seq<ProofRow>, r: Record, rows: seq<nat>)
    requires MadeFrom(p, r, rows) && |p| <= |p'|
    requires forall i :: 0 <= i < |p| ==> p'[i] == p[i] || p'[i] == p[i].(validated := true)
    ensures MadeFrom(p', r, rows)
  {
    assert RecordOf(p', rows, r.txRow) == RecordOf(p, rows, r.txRow);
  }

  lemma AccountedUpsert(p: seq<ProofRow>, v: seq<Record>, src: seq<seq<nat>>, row: ProofRow)
    requires Accounted(p, v, src) && !row.validated
    ensures Accounted(p + [row], v, src)
  {
    hide MadeFrom;
    forall m | 0 <= m < |v| ensures MadeFrom(p + [row], v[m], src[m]) {
      MadeFromKept(p, p + [row], v[m], src[m]);
    }
    assert forall i :: 0 <= i < |p| ==> (p + [row])[i] == p[i];
  }

  /** The rows a record of a drain was made from. */
  ghost function GroupOf(hashing: Hashing, txs: map<Bytes, TxRow>, p: seq<ProofRow>, h: Bytes, r: Record)
    : (rows: seq<nat>)
    requires RecordFor(hashing, txs, p, h, r)
    ensures IsGroup(p, h, rows) && r == RecordOf(p, rows, r.txRow)
    ensures forall i :: i in rows <==> i in Pending(p, h)
  {
    var rows :| IsGroup(p, h, rows) && TxKey(hashing, p[rows[0]].event) in txs
                && r == RecordOf(p, rows, txs[TxKey(hashing, p[rows[0]].event)]);
    rows
  }

  lemma GroupMade(p: seq<ProofRow>, hs: set<Bytes>, h: Bytes, r: Record, rows: seq<nat>)
    requires IsGroup(p, h, rows) && r == RecordOf(p, rows, r.txRow) && h in hs
    ensures MadeFrom(Flip(p, hs), r, rows)
  {
    assert forall k :: 0 <= k < |rows| ==> rows[k] in Pending(p, h);
    assert RecordOf(Flip(p, hs), rows, r.txRow) == RecordOf(p, rows, r.txRow);
  }

  lemma {:induction false} AccountedDrain(hashing: Hashing, txs: map<Bytes, TxRow>, p: seq<ProofRow>, v: seq<Record>,
                                          src: seq<seq<nat>>, hs: seq<Bytes>, rs: seq<Record>)
    returns (src': seq<seq<nat>>)
    requires Accounted(p, v, src) && RecordsFor(hashing, txs, p, hs, rs)
    ensures Accounted(Flip(p, SetOf(hs)), v + rs, src')
  {
    hide MadeFrom, RecordFor, IsGroup, Pending;
    var p', v' := Flip(p, SetOf(hs)), v + rs;
    var more := seq(|hs|, k requires 0 <= k < |hs| => GroupOf(hashing, txs, p, hs[k], rs[k]));
    src' := src + more;
    forall m | 0 <= m < |v'| ensures MadeFrom(p', v'[m], src'[m]) {
      if m < |v| {
        MadeFromKept(p, p', v[m], src[m]);
      } else {
        var k := m - |v|;
        assert hs[k] in SetOf(hs);
        GroupMade(p, SetOf(hs), hs[k], rs[k], more[k]);
      }
    }
    forall m, n | 0 <= m < n < |src'| ensures Apart(src'[m], src'[n]) {
      GroupsApart(hashing, txs, p, v, src, hs, rs, more, m, n);
    }
    forall i | 0 <= i < |p'| && p'[i].validated ensures exists m :: 0 <= m < |src'| && i in src'[m] {
      if p[i].validated {
        var m :| 0 <= m < |src| && i in src[m];
        assert i in src'[m];
      } else {
        var k :| 0 <= k < |hs| && hs[k] == p[i].orderHash;
        InPending(p, i);
        assert i in more[k] && src'[|src| + k] == more[k];
      }
    }
  }

  lemma InPending(p: seq<ProofRow>, i: nat)
    requires i < |p| && !p[i].validated
    ensures i in Pending(p, p[i].orderHash)
  {
  }

  lemma GroupsApart(hashing: Hashing, txs: map<Bytes, TxRow>, p: seq<ProofRow>, v: seq<Record>, src: seq<seq<nat>>,
                    hs: seq<Bytes>, rs: seq<Record>, more: seq<seq<nat>>, m: nat, n: nat)
    requires Accounted(p, v, src) && RecordsFor(hashing, txs, p, hs, rs) && |more| == |hs|
    requires forall k :: 0 <= k < |hs| ==> more[k] == GroupOf(hashing, txs, p, hs[k], rs[k])
    requires m < n < |src + more|
    ensures Apart((src + more)[m], (src + more)[n])
  {
    hide RecordFor, IsGroup;
    if |src| <= n {
      var k := n - |src|;
      assert forall i :: i in more[k] ==> i in Pending(p, hs[k]);
      if m < |src| {
        assert MadeFrom(p, v[m], src[m]);
      } else {
        var l := m - |src|;
        assert forall i :: i in more[l] ==> i in Pending(p, hs[l]);
      }
    }
  }

  // ---------- soundness over every history ----------

  lemma {:induction false} UpsertSound(hashing: Hashing, t: Tables, s: Submission)
    requires Sound(hashing, t)
    ensures Sound(hashing, Upserted(hashing, t, s))
  {
    hide Accounted;
    var t' := Upserted(hashing, t, s);
    var src :| Accounted(t.proofs, t.records, src);
    if t'.proofs != t.proofs {
      AccountedUpsert(t.proofs, t.records, src, s.proof.(validated := false));
    }
    assert Accounted(t'.proofs, t'.records, src);
  }

  lemma {:induction false} DrainSound(hashing: Hashing, minimal: nat, t: Tables, hs: seq<Bytes>, rs: seq<Record>,
                                      t': Tables)
    requires Sound(hashing, t) && DrainedTo(hashing, minimal, t, hs, rs, t')
    ensures Sound(hashing, t')
  {
    hide Accounted, Gated, UniqueProofs, Flip, QuorumHashes, RecordsFor;
    var src :| Accounted(t.proofs, t.records, src);
    var src' := AccountedDrain(hashing, t.txs, t.proofs, t.records, src, hs, rs);
    FlipValid(hashing, t.proofs, t.txs, SetOf(hs));
    forall k | 0 <= k < |t'.records| ensures hashing.hashTx(t'.records[k].event) == t'.records[k].orderHash {
      if k >= |t.records| {
        RecordGated(hashing, t.txs, t.proofs, hs, rs, k - |t.records|);
      }
    }
  }

  lemma RecordGated(hashing: Hashing, txs: map<Bytes, TxRow>, p: seq<ProofRow>, hs: seq<Bytes>, rs: seq<Record>, k: nat)
    requires Gated(hashing, p, txs) && RecordsFor(hashing, txs, p, hs, rs) && k < |rs|
    ensures hashing.hashTx(rs[k].event) == rs[k].orderHash == hs[k]
  {
    assert RecordFor(hashing, txs, p, hs[k], rs[k]);
    var rows := GroupOf(hashing, txs, p, hs[k], rs[k]);
    assert rows[0] in Pending(p, hs[k]);
  }

  /** After any sequence of submissions and drains the tables are sound: behind the gate, and with every
      validated row in exactly one record. */
  lemma {:induction false} HistorySound(hashing: Hashing, minimal: nat, ts: seq<Tables>, i: nat)
    requires History(hashing, minimal, ts) && i < |ts|
    ensures Sound(hashing, ts[i])
    decreases i
  {
    hide Upserted, DrainedTo;
    if i == 0 {
      assert Accounted([], [], []);
    } else {
      var t, t' := ts[i - 1], ts[i];
      HistorySound(hashing, minimal, ts, i - 1);
      assert Steps(hashing, minimal, t, t');
      if s :| t' == Upserted(hashing, t, s) {
        UpsertSound(hashing, t, s);
      } else {
        var hs, rs :| DrainedTo(hashing, minimal, t, hs, rs, t');
        DrainSound(hashing, minimal, t, hs, rs, t');
      }
    }
  }

  /** Nothing is lost: rows and records stay in place, a row changes only by becoming validated. */
  ghost predicate Grows(t: Tables, t': Tables) {
    && |t.proofs| <= |t'.proofs| && t.records <= t'.records
    && forall n :: 0 <= n < |t.proofs| ==>
         t'.proofs[n] == t.proofs[n] || t'.proofs[n] == t.proofs[n].(validated := true)
  }

  lemma {:induction false} HistoryGrows(hashing: Hashing, minimal: nat, ts: seq<Tables>, i: nat, j: nat)
    requires History(hashing, minimal, ts) && i <= j < |ts|
    ensures Grows(ts[i], ts[j])
    decreases j
  {
    hide RecordsFor, QuorumHashes, SignaturesClear, RecordIdsClear;
    if i < j {
      HistoryGrows(hashing, minimal, ts, i, j - 1);
      assert Steps(hashing, minimal, ts[j - 1], ts[j]);
    }
  }

  // ---------- conservation ----------

  function ValidatedRows(p: seq<ProofRow>): set<nat> {
    set i: nat | i < |p| && p[i].validated
  }

  /** How many signers all records list together. */
  function TotalListed(v: seq<Record>): nat {
    if v == [] then 0 else TotalListed(v[..|v| - 1]) + |v[|v| - 1].signers|
  }

  ghost function RowsOf(src: seq<seq<nat>>): set<nat> {
    set m, i | 0 <= m < |src| && i in src[m] :: i
  }

  lemma {:induction false} ListedSize(p: seq<ProofRow>, v: seq<Record>, src: seq<seq<nat>>, n: nat)
    requires Accounted(p, v, src) && n <= |v|
    ensures |RowsOf(src[..n])| == TotalListed(v[..n])
    decreases n
  {
    hide RowsOf, Apart, RowSet, Accounted;
    AccountedLength(p, v, src);
    if n == 0 {
      NoRows();
      assert src[..0] == [];
    } else {
      ListedSize(p, v, src, n - 1);
      AccountedAt(p, v, src, n - 1);
      RowSetSize(src[n - 1]);
      RowsOfSnoc(src, n - 1);
      EarlierApart(src, n - 1);
      assert v[..n][..n - 1] == v[..n - 1];
    }
  }

  lemma NoRows()
    ensures RowsOf([]) == {}
  {
  }

  lemma EarlierApart(src: seq<seq<nat>>, n: nat)
    requires n < |src| && forall m :: 0 <= m < n ==> Apart(src[m], src[n])
    ensures RowsOf(src[..n]) !! RowSet(src[n])
  {
    forall i | i in RowsOf(src[..n]) ensures i !in src[n] {
      var m :| 0 <= m < n && i in src[..n][m];
      assert Apart(src[m], src[n]);
    }
  }

  lemma RowsOfSnoc(src: seq<seq<nat>>, n: nat)
    requires n < |src|
    ensures RowsOf(src[..n + 1]) == RowsOf(src[..n]) + RowSet(src[n])
  {
    var a, b := src[..n + 1], src[..n];
    forall i | i in RowsOf(b) + RowSet(src[n]) ensures i in RowsOf(a) {
      if i in src[n] {
        assert i in a[n];
      } else {
        var m :| 0 <= m < |b| && i in b[m];
        assert i in a[m];
      }
    }
    forall i | i in RowsOf(a) ensures i in RowsOf(b) + RowSet(src[n]) {
      var m :| 0 <= m < |a| && i in a[m];
      if m < n {
        assert i in b[m];
      }
    }
  }

  /** Each proof is consumed at most once, and only by a record: over the whole life of the tables, the rows
      validated so far are exactly as many as the signers all records list, and `src` assigns every record its
      own rows. */
  lemma {:induction false} ProofsConsumedOnce(hashing: Hashing, minimal: nat, ts: seq<Tables>, i: nat)
    returns (src: seq<seq<nat>>)
    requires History(hashing, minimal, ts) && i < |ts|
    ensures Accounted(ts[i].proofs, ts[i].records, src)
    ensures |ValidatedRows(ts[i].proofs)| == TotalListed(ts[i].records)
  {
    hide History, Accounted, ValidatedRows, TotalListed, RowsOf;
    var p, v := ts[i].proofs, ts[i].records;
    HistorySound(hashing, minimal, ts, i);
    src :| Accounted(p, v, src);
    AccountedLength(p, v, src);
    ListedSize(p, v, src, |v|);
    assert src[..|v|] == src && v[..|v|] == v;
    ListedAreValidated(p, v, src);
  }

  lemma AccountedAt(p: seq<ProofRow>, v: seq<Record>, src: seq<seq<nat>>, m: nat)
    requires Accounted(p, v, src) && m < |src| == |v|
    ensures |v[m].signers| == |src[m]|
    ensures forall k, l :: 0 <= k < l < |src[m]| ==> src[m][k] != src[m][l]
    ensures forall n :: 0 <= n < m ==> Apart(src[n], src[m])
  {
    hide Apart;
    assert MadeFrom(p, v[m], src[m]);
  }

  lemma AccountedLength(p: seq<ProofRow>, v: seq<Record>, src: seq<seq<nat>>)
    requires Accounted(p, v, src)
    ensures |src| == |v|
  {
  }

  lemma ListedAreValidated(p: seq<ProofRow>, v: seq<Record>, src: seq<seq<nat>>)
    requires Accounted(p, v, src)
    ensures ValidatedRows(p) == RowsOf(src)
  {
    hide Apart;
    forall n | n in RowsOf(src) ensures n in ValidatedRows(p) {
      var m :| 0 <= m < |src| && n in src[m];
      assert MadeFrom(p, v[m], src[m]);
    }
  }

  // ---------- quorums that come too late ----------

  /** `h` has a quorum, and there already is a record of `h` for the transaction of all its pending rows. */
  ghost predicate Late(p: seq<ProofRow>, v: seq<Record>, minimal: nat, h: Bytes) {
    Quorum(p, minimal, h) && exists k :: 0 <= k < |v| && RecordCovers(p, v[k], h)
  }

  ghost predicate RecordCovers(p: seq<ProofRow>, r: Record, h: Bytes) {
    r.orderHash == h && forall i :: i in Pending(p, h) ==> p[i].event.bitcoinTx == r.event.bitcoinTx
  }

  predicate HasRecord(v: seq<Record>, h: Bytes) {
    exists k :: 0 <= k < |v| && v[k].orderHash == h
  }

  /** A late quorum is not clear: the id of its record is taken. */
  lemma {:induction false} LateNotClear(hashing: Hashing, p: seq<ProofRow>, v: seq<Record>, minimal: nat, h: Bytes)
    requires Late(p, v, minimal, h)
    ensures !AllClear(hashing, p, v, QuorumHashes(p, minimal))
  {
    hide QuorumHashes, SignaturesClear;
    var k :| 0 <= k < |v| && RecordCovers(p, v[k], h);
    QuorumHashesExact(p, minimal, h);
    var i :| i in Pending(p, h);
    assert RecordKey(hashing, v[k]) == RowKey(hashing, p[i]);
  }

  /** And no drain ever handles it. */
  lemma {:induction false} LateBlocks(hashing: Hashing, txs: map<Bytes, TxRow>, p: seq<ProofRow>, v: seq<Record>,
                                      minimal: nat, h: Bytes, hs: seq<Bytes>, rs: seq<Record>,
                                      p': seq<ProofRow>, v': seq<Record>)
    requires Late(p, v, minimal, h) && Drained(hashing, txs, p, v, hs, rs, p', v')
    ensures h !in SetOf(hs)
  {
    hide SignaturesClear, Flip, RecordsFor;
    var k :| 0 <= k < |v| && RecordCovers(p, v[k], h);
    if h in SetOf(hs) {
      var m :| 0 <= m < |hs| && hs[m] == h;
      SameLength(hashing, txs, p, hs, rs);
      var j := RecordRow(hashing, txs, p, hs, rs, m);
      assert false;
    }
  }

  /** The events of record `k` and of row `i`, both with order hash `h`, collide. */
  ghost predicate EventsCollide(hashing: Hashing, t: Tables, h: Bytes, k: nat, i: nat) {
    && k < |t.records| && i < |t.proofs| && t.records[k].orderHash == h == t.proofs[i].orderHash
    && OrderHashCollision(hashing, t.records[k].event, t.proofs[i].event)
  }

  /** In sound tables every quorum whose hash already has a record is late - or that record and one of the pending
      rows have colliding events. */
  lemma {:induction false} RecordedIsLate(hashing: Hashing, t: Tables, minimal: nat, h: Bytes) returns (k: nat, i: nat)
    requires Sound(hashing, t) && Quorum(t.proofs, minimal, h) && HasRecord(t.records, h)
    ensures || Late(t.proofs, t.records, minimal, h)
            || (EventsCollide(hashing, t, h, k, i) && i in Pending(t.proofs, h))
  {
    hide Accounted;
    k :| 0 <= k < |t.records| && t.records[k].orderHash == h;
    i := 0;
    if j :| j in Pending(t.proofs, h) && t.proofs[j].event != t.records[k].event {
      i := j;
    } else {
      assert RecordCovers(t.proofs, t.records[k], h);
    }
  }

  lemma {:induction false} LateStep(hashing: Hashing, minimal: nat, t: Tables, t': Tables, h: Bytes)
    returns (k: nat, i: nat)
    requires Sound(hashing, t) && Sound(hashing, t') && Steps(hashing, minimal, t, t')
    requires Late(t.proofs, t.records, minimal, h)
    ensures Late(t'.proofs, t'.records, minimal, h) || EventsCollide(hashing, t', h, k, i)
  {
    hide Sound, Late, Upserted, DrainedTo, Quorum, EventsCollide;
    LateHasRecord(t, minimal, h);
    if s :| t' == Upserted(hashing, t, s) {
      UpsertKeepsQuorum(hashing, t, s, minimal, h);
    } else {
      var hs, rs :| DrainedTo(hashing, minimal, t, hs, rs, t');
      DrainKeepsLate(hashing, minimal, t, hs, rs, t', h);
    }
    k, i := RecordedIsLate(hashing, t', minimal, h);
  }

  lemma LateHasRecord(t: Tables, minimal: nat, h: Bytes)
    requires Late(t.proofs, t.records, minimal, h)
    ensures Quorum(t.proofs, minimal, h) && HasRecord(t.records, h)
  {
    hide Quorum;
  }

  lemma UpsertKeepsQuorum(hashing: Hashing, t: Tables, s: Submission, minimal: nat, h: Bytes)
    requires Quorum(t.proofs, minimal, h)
    ensures Quorum(Upserted(hashing, t, s).proofs, minimal, h) && Upserted(hashing, t, s).records == t.records
  {
    var p, p' := t.proofs, Upserted(hashing, t, s).proofs;
    assert forall i :: 0 <= i < |p| ==> p'[i] == p[i];
    assert Pending(p, h) <= Pending(p', h);
    forall v | v in Signers(p, h) ensures v in Signers(p', h) {
      var i: nat :| i < |p| && !p[i].validated && p[i].orderHash == h && p[i].signer == v;
      assert p'[i].signer == v;
    }
    SubsetSize(Signers(p, h), Signers(p', h));
  }

  lemma {:induction false} DrainKeepsLate(hashing: Hashing, minimal: nat, t: Tables, hs: seq<Bytes>, rs: seq<Record>,
                                          t': Tables, h: Bytes)
    requires DrainedTo(hashing, minimal, t, hs, rs, t') && Late(t.proofs, t.records, minimal, h)
    ensures Quorum(t'.proofs, minimal, h) && HasRecord(t'.records, h)
  {
    hide QuorumHashes, Flip, Quorum, AllClear, SignaturesClear, RecordIdsClear, RecordsFor;
    LateBlocks(hashing, t.txs, t.proofs, t.records, minimal, h, hs, rs, t'.proofs, t'.records);
    QuorumAfterFlip(t.proofs, minimal, SetOf(hs), h);
    var k :| 0 <= k < |t.records| && RecordCovers(t.proofs, t.records[k], h);
    assert t'.records[k].orderHash == h;
  }

  /** Once late, late forever: in every history, at every later point, after whatever submissions and drains,
      the quorum is still there and still late, so no drain of all quorums can go through again - or a record of
      that hash and a row of that hash, both still in the tables, have colliding events. */
  lemma {:induction false} LateForever(hashing: Hashing, minimal: nat, ts: seq<Tables>, m: nat, n: nat, h: Bytes)
    returns (k: nat, i: nat)
    requires History(hashing, minimal, ts) && m <= n < |ts|
    requires Quorum(ts[m].proofs, minimal, h) && HasRecord(ts[m].records, h)
    ensures || (&& Late(ts[n].proofs, ts[n].records, minimal, h)
                && !AllClear(hashing, ts[n].proofs, ts[n].records, QuorumHashes(ts[n].proofs, minimal)))
            || EventsCollide(hashing, ts[n], h, k, i)
    decreases n
  {
    hide Sound, Late, Quorum, AllClear, Steps, QuorumHashes, EventsCollide;
    HistorySound(hashing, minimal, ts, n);
    if m == n {
      k, i := RecordedIsLate(hashing, ts[n], minimal, h);
    } else {
      k, i := LateForever(hashing, minimal, ts, m, n - 1, h);
      if EventsCollide(hashing, ts[n - 1], h, k, i) {
        HistoryGrows(hashing, minimal, ts, n - 1, n);
        CollisionStays(hashing, ts[n - 1], ts[n], h, k, i);
      } else {
        HistorySound(hashing, minimal, ts, n - 1);
        assert Steps(hashing, minimal, ts[n - 1], ts[n]);
        k, i := LateStep(hashing, minimal, ts[n - 1], ts[n], h);
      }
    }
    if Late(ts[n].proofs, ts[n].records, minimal, h) {
      LateNotClear(hashing, ts[n].proofs, ts[n].records, minimal, h);
    }
  }

  lemma CollisionStays(hashing: Hashing, t: Tables, t': Tables, h: Bytes, k: nat, i: nat)
    requires EventsCollide(hashing, t, h, k, i) && Grows(t, t')
    ensures EventsCollide(hashing, t', h, k, i)
  {
  }

  // ---------- signatures that stand twice ----------

  /** Two unvalidated rows carry one signature, and the hash of the first has a quorum. */
  ghost predicate Tied(p: seq<ProofRow>, minimal: nat, i: nat, j: nat) {
    && i < |p| && j < |p| && i != j && !p[i].validated && !p[j].validated && p[i].signature == p[j].signature
    && Quorum(p, minimal, p[i].orderHash)
  }

  /** Such a quorum is not clear: the update of that signature would hit two rows. */
  lemma {:induction false} TiedNotClear(hashing: Hashing, p: seq<ProofRow>, v: seq<Record>, minimal: nat, i: nat,
                                        j: nat)
    requires Tied(p, minimal, i, j)
    ensures !AllClear(hashing, p, v, QuorumHashes(p, minimal))
  {
    hide QuorumHashes, RowIdsClear;
    QuorumHashesExact(p, minimal, p[i].orderHash);
    assert !SignatureAlone(p, i);
  }

  /** And no drain handles the hash of either row. */
  lemma {:induction false} TiedBlocks(hashing: Hashing, txs: map<Bytes, TxRow>, p: seq<ProofRow>, v: seq<Record>,
                                      minimal: nat, i: nat, j: nat, hs: seq<Bytes>, rs: seq<Record>,
                                      p': seq<ProofRow>, v': seq<Record>)
    requires Tied(p, minimal, i, j) && Drained(hashing, txs, p, v, hs, rs, p', v')
    ensures p[i].orderHash !in SetOf(hs) && p[j].orderHash !in SetOf(hs)
  {
    hide SetOf, Flip, RecordsFor, RecordIdsClear, Quorum;
    assert !SignatureAlone(p, i) && !SignatureAlone(p, j);
  }

  lemma {:induction false} TiedStep(hashing: Hashing, minimal: nat, t: Tables, t': Tables, i: nat, j: nat)
    requires Steps(hashing, minimal, t, t') && Tied(t.proofs, minimal, i, j)
    ensures Tied(t'.proofs, minimal, i, j)
  {
    hide QuorumHashes, Quorum, AllClear, SignaturesClear, RecordIdsClear, RecordsFor, SetOf, Admitted, Holds;
    var h := t.proofs[i].orderHash;
    if s :| t' == Upserted(hashing, t, s) {
      UpsertKeepsQuorum(hashing, t, s, minimal, h);
    } else {
      var hs, rs :| DrainedTo(hashing, minimal, t, hs, rs, t');
      TiedBlocks(hashing, t.txs, t.proofs, t.records, minimal, i, j, hs, rs, t'.proofs, t'.records);
      QuorumAfterFlip(t.proofs, minimal, SetOf(hs), h);
    }
  }

  /** And that lasts forever too, in every history and without any collision. */
  lemma {:induction false} TiedForever(hashing: Hashing, minimal: nat, ts: seq<Tables>, m: nat, n: nat, i: nat, j: nat)
    requires History(hashing, minimal, ts) && m <= n < |ts| && Tied(ts[m].proofs, minimal, i, j)
    ensures Tied(ts[n].proofs, minimal, i, j)
    ensures !AllClear(hashing, ts[n].proofs, ts[n].records, QuorumHashes(ts[n].proofs, minimal))
    decreases n
  {
    hide Tied, AllClear, Steps, QuorumHashes;
    if m < n {
      TiedForever(hashing, minimal, ts, m, n - 1, i, j);
      assert Steps(hashing, minimal, ts[n - 1], ts[n]);
      TiedStep(hashing, minimal, ts[n - 1], ts[n], i, j);
    }
    TiedNotClear(hashing, ts[n].proofs, ts[n].records, minimal, i, j);
  }

  /** Two different pairs of transaction and order hash with one record id. */
  ghost predicate IdCollision(hashing: Hashing, tx: Bytes, h: Bytes, tx': Bytes, h': Bytes) {
    (tx, h) != (tx', h') && hashing.recordId(tx, h) == hashing.recordId(tx', h')
  }

  /** The record id of pending row `i` is also that of record `n`, or of row `n`, for another pair. */
  ghost predicate IdsCollide(hashing: Hashing, p: seq<ProofRow>, v: seq<Record>, i: nat, n: nat) {
    && i < |p| && !p[i].validated
    && var tx, h := p[i].event.bitcoinTx, p[i].orderHash;
       || (n < |v| && IdCollision(hashing, tx, h, v[n].event.bitcoinTx, v[n].orderHash))
       || (n < |p| && IdCollision(hashing, tx, h, p[n].event.bitcoinTx, p[n].orderHash))
  }

  lemma {:induction false} NoneTied(p: seq<ProofRow>, minimal: nat)
    ensures SignaturesClear(p, QuorumHashes(p, minimal)) <==> !exists i, j :: Tied(p, minimal, i, j)
  {
    hide QuorumHashes, Quorum;
    forall i: nat | i < |p| && !p[i].validated
      ensures p[i].orderHash in QuorumHashes(p, minimal) <==> Quorum(p, minimal, p[i].orderHash)
    {
      QuorumHashesExact(p, minimal, p[i].orderHash);
    }
    if i: nat :| i < |p| && !p[i].validated && p[i].orderHash in QuorumHashes(p, minimal) && !SignatureAlone(p, i) {
      var j :| 0 <= j < |p| && j != i && !p[j].validated && p[j].signature == p[i].signature;
      assert Tied(p, minimal, i, j);
    }
  }

  /** Exactly when the pending quorums of sound tables are clear: when none of them already has a record and none
      holds a signature that stands twice - or the tables hold a record and a pending row of one quorum hash with
      colliding events, or a pending row whose record id collides with another's. */
  lemma {:induction false} ClearExactly(hashing: Hashing, t: Tables, minimal: nat)
    returns (h: Bytes, k: nat, i: nat, n: nat)
    requires Sound(hashing, t)
    ensures || (AllClear(hashing, t.proofs, t.records, QuorumHashes(t.proofs, minimal)) <==>
                  && (forall g :: g in QuorumHashes(t.proofs, minimal) ==> !HasRecord(t.records, g))
                  && !(exists i, j :: Tied(t.proofs, minimal, i, j)))
            || (h in QuorumHashes(t.proofs, minimal) && i in Pending(t.proofs, h) && EventsCollide(hashing, t, h, k, i))
            || IdsCollide(hashing, t.proofs, t.records, i, n)
  {
    hide Sound, QuorumHashes, SignaturesClear, Late, Tied, EventsCollide, IdsCollide;
    NoneTied(t.proofs, minimal);
    var p, v, q := t.proofs, t.records, QuorumHashes(t.proofs, minimal);
    h, k, i, n := [], 0, 0, 0;
    if g :| g in q && HasRecord(v, g) {
      QuorumHashesExact(p, minimal, g);
      h := g;
      k, i := RecordedIsLate(hashing, t, minimal, g);
      if Late(p, v, minimal, g) {
        LateNotClear(hashing, p, v, minimal, g);
      }
    } else if !RowIdsClear(hashing, p, v, q) {
      i, n := TakenIdCollides(hashing, p, v, q);
    }
  }

  lemma TakenIdCollides(hashing: Hashing, p: seq<ProofRow>, v: seq<Record>, q: set<Bytes>) returns (i: nat, n: nat)
    requires !RowIdsClear(hashing, p, v, q) && forall h :: h in q ==> !HasRecord(v, h)
    ensures IdsCollide(hashing, p, v, i, n)
  {
    i :| i < |p| && !p[i].validated && p[i].orderHash in q
      && !((forall k :: 0 <= k < |v| ==> RecordKey(hashing, v[k]) != RowKey(hashing, p[i]))
           && (forall j: nat ::
                 j < |p| && !p[j].validated && p[j].orderHash in q && p[j].orderHash != p[i].orderHash ==>
                   RowKey(hashing, p[j]) != RowKey(hashing, p[i])));
    if k :| 0 <= k < |v| && RecordKey(hashing, v[k]) == RowKey(hashing, p[i]) {
      n := k;
    } else {
      n :| n < |p| && !p[n].validated && p[n].orderHash in q && p[n].orderHash != p[i].orderHash
        && RowKey(hashing, p[n]) == RowKey(hashing, p[i]);
    }
  }

  // ---------- for the methods ----------

  lemma UpsertSteps(hashing: Hashing, minimal: nat, t: Tables, s: Submission)
    ensures Steps(hashing, minimal, t, Upserted(hashing, t, s))
  {
  }

  lemma DrainSteps(hashing: Hashing, minimal: nat, t: Tables, hs: seq<Bytes>, rs: seq<Record>, t': Tables)
    requires DrainedTo(hashing, minimal, t, hs, rs, t')
    ensures Steps(hashing, minimal, t, t')
  {
    hide DrainedTo;
  }

  lemma AllDrainedNoneLate(hashing: Hashing, txs: map<Bytes, TxRow>, p: seq<ProofRow>, v: seq<Record>, minimal: nat,
                           hs: seq<Bytes>, rs: seq<Record>, p': seq<ProofRow>, v': seq<Record>)
    requires Drained(hashing, txs, p, v, hs, rs, p', v') && SetOf(hs) == QuorumHashes(p, minimal)
    ensures !exists h :: Late(p, v, minimal, h)
  {
    hide Drained, AllClear, QuorumHashes, Quorum;
    forall h ensures !Late(p, v, minimal, h) {
      if Late(p, v, minimal, h) {
        QuorumHashesExact(p, minimal, h);
        LateBlocks(hashing, txs, p, v, minimal, h, hs, rs, p', v');
      }
    }
  }

  lemma AllDrainedNoneTied(hashing: Hashing, txs: map<Bytes, TxRow>, p: seq<ProofRow>, v: seq<Record>, minimal: nat,
                           hs: seq<Bytes>, rs: seq<Record>, p': seq<ProofRow>, v': seq<Record>)
    requires Drained(hashing, txs, p, v, hs, rs, p', v') && SetOf(hs) == QuorumHashes(p, minimal)
    ensures !exists i, j :: Tied(p, minimal, i, j)
  {
    hide Drained, AllClear, QuorumHashes, Quorum;
    forall i: nat, j: nat ensures !Tied(p, minimal, i, j) {
      if Tied(p, minimal, i, j) {
        QuorumHashesExact(p, minimal, p[i].orderHash);
        TiedBlocks(hashing, txs, p, v, minimal, i, j, hs, rs, p', v');
      }
    }
  }

  // ---------- proofs of one event ----------

  /** The rows a list of submissions adds. */
  function Fresh(subs: seq<Submission>): (p: seq<ProofRow>)
    ensures |p| == |subs|
  {
    seq(|subs|, i requires 0 <= i < |subs| => subs[i].proof.(validated := false))
  }

  function SignerSet(subs: seq<Submission>): set<Principal> {
    set i | 0 <= i < |subs| :: subs[i].proof.signer
  }

  /** Admitted proofs of event `e`, from at least `minimal` signers. */
  ghost predicate QuorumFor(hashing: Hashing, subs: seq<Submission>, e: Event, minimal: nat) {
    && subs != [] && |SignerSet(subs)| >= minimal
    && forall i :: 0 <= i < |subs| ==> Admitted(hashing, subs[i]) && subs[i].proof.event == e
  }

  /** Pairwise different under the unique constraint. */
  ghost predicate AllDifferent(subs: seq<Submission>) {
    forall i, j :: 0 <= i < j < |subs| ==> !SameProof(subs[i].proof, subs[j].proof)
  }

  ghost predicate SignaturesDiffer(subs: seq<Submission>) {
    forall i, j :: 0 <= i < j < |subs| ==> subs[i].proof.signature != subs[j].proof.signature
  }

  /** After validated rows, the rows of a quorum make one: its signers are those of the submissions. */
  lemma {:induction false} FreshQuorum(hashing: Hashing, done: seq<ProofRow>, subs: seq<Submission>, e: Event,
                                       minimal: nat)
    requires QuorumFor(hashing, subs, e, minimal) && forall i :: 0 <= i < |done| ==> done[i].validated
    ensures var p := done + Fresh(subs);
      && Quorum(p, minimal, hashing.hashTx(e)) && QuorumHashes(p, minimal) == {hashing.hashTx(e)}
      && (forall i :: 0 <= i < |p| && !p[i].validated ==> i >= |done| && p[i].event == e)
  {
    var p, h: Bytes := done + Fresh(subs), hashing.hashTx(e);
    forall i | 0 <= i < |subs|
      ensures p[|done| + i] == subs[i].proof.(validated := false) && p[|done| + i].orderHash == h
    {
      assert Admitted(hashing, subs[i]);
    }
    assert |done| in Pending(p, h) by { assert p[|done| + 0].orderHash == h; }
    forall v | v in SignerSet(subs) ensures v in Signers(p, h) {
      var i :| 0 <= i < |subs| && subs[i].proof.signer == v;
      assert p[|done| + i].signer == v;
    }
    SubsetSize(SignerSet(subs), Signers(p, h));
    forall g ensures g in QuorumHashes(p, minimal) <==> g == h {
      QuorumHashesExact(p, minimal, g);
      if Quorum(p, minimal, g) {
        var i :| i in Pending(p, g);
        assert p[|done| + (i - |done|)].orderHash == h;
      }
    }
  }

  /** A quorum with pairwise different signatures, in an otherwise empty table, is clear. */
  lemma {:induction false} FirstIsClear(hashing: Hashing, subs: seq<Submission>, e: Event, minimal: nat)
    requires QuorumFor(hashing, subs, e, minimal) && SignaturesDiffer(subs)
    ensures AllClear(hashing, Fresh(subs), [], QuorumHashes(Fresh(subs), minimal))
    ensures QuorumHashes(Fresh(subs), minimal) == {hashing.hashTx(e)}
  {
    hide Quorum, QuorumHashes, Fresh, SignaturesClear, RowIdsClear, QuorumFor;
    var p, h: Bytes := Fresh(subs), hashing.hashTx(e);
    assert [] + p == p;
    FreshQuorum(hashing, [], subs, e, minimal);
    FreshSignatures(subs);
    DifferentAreClear(p, {h});
    OneHashIsClear(hashing, p, h);
  }

  lemma FreshSignatures(subs: seq<Submission>)
    requires SignaturesDiffer(subs)
    ensures forall i, j :: 0 <= i < j < |subs| ==> Fresh(subs)[i].signature != Fresh(subs)[j].signature
  {
  }

  lemma DifferentAreClear(p: seq<ProofRow>, hs: set<Bytes>)
    requires forall i, j :: 0 <= i < j < |p| ==> p[i].signature != p[j].signature
    ensures SignaturesClear(p, hs)
  {
    forall i: nat | i < |p| ensures SignatureAlone(p, i) {
    }
  }

  lemma OneHashIsClear(hashing: Hashing, p: seq<ProofRow>, h: Bytes)
    ensures RowIdsClear(hashing, p, [], {h})
  {
  }

  /** After that quorum was drained, another one for the same event is late. */
  lemma {:induction false} SecondIsLate(hashing: Hashing, minimal: nat, first: seq<Submission>, second: seq<Submission>,
                                        e: Event, t0: Tables, hs: seq<Bytes>, rs: seq<Record>, t: Tables)
    requires QuorumFor(hashing, first, e, minimal) && QuorumFor(hashing, second, e, minimal)
    requires t0.proofs == Fresh(first) && t0.records == [] && DrainedTo(hashing, minimal, t0, hs, rs, t)
    requires SetOf(hs) == {hashing.hashTx(e)}
    ensures Late(t.proofs + Fresh(second), t.records, minimal, hashing.hashTx(e))
  {
    hide SignaturesClear, RecordIdsClear, RecordsFor, QuorumHashes, Quorum, Flip, Pending, QuorumFor;
    var h: Bytes, p := hashing.hashTx(e), t.proofs + Fresh(second);
    FirstIsDone(hashing, minimal, first, e);
    FreshQuorum(hashing, t.proofs, second, e, minimal);
    assert h in SetOf(hs);
    var k :| 0 <= k < |hs| && hs[k] == h;
    SameLength(hashing, t0.txs, t0.proofs, hs, rs);
    var i := RecordRow(hashing, t0.txs, t0.proofs, hs, rs, k);
    EventOfFirst(hashing, minimal, first, e, i);
    assert t.records == rs && rs[k].event == e;
    PendingAreFresh(p, h);
    assert RecordCovers(p, t.records[k], h);
  }

  lemma FirstIsDone(hashing: Hashing, minimal: nat, subs: seq<Submission>, e: Event)
    requires QuorumFor(hashing, subs, e, minimal)
    ensures forall i :: 0 <= i < |subs| ==> Flip(Fresh(subs), {hashing.hashTx(e)})[i].validated
    ensures |Flip(Fresh(subs), {hashing.hashTx(e)})| == |subs|
  {
    forall i | 0 <= i < |subs| ensures subs[i].proof.orderHash == hashing.hashTx(e) {
      assert Admitted(hashing, subs[i]);
    }
  }

  lemma EventOfFirst(hashing: Hashing, minimal: nat, subs: seq<Submission>, e: Event, i: nat)
    requires QuorumFor(hashing, subs, e, minimal) && i < |subs|
    ensures Fresh(subs)[i].event == e
  {
  }

  lemma PendingAreFresh(p: seq<ProofRow>, h: Bytes)
    ensures forall i :: i in Pending(p, h) ==> 0 <= i < |p| && !p[i].validated
  {
  }

  /** A quorum in which one signature stands twice. */
  lemma {:induction false} FreshTied(hashing: Hashing, subs: seq<Submission>, e: Event, minimal: nat, i: nat, j: nat)
    requires QuorumFor(hashing, subs, e, minimal)
    requires i < j < |subs| && subs[i].proof.signature == subs[j].proof.signature
    ensures Tied(Fresh(subs), minimal, i, j)
  {
    hide QuorumHashes, Quorum, SignerSet;
    assert [] + Fresh(subs) == Fresh(subs);
    FreshQuorum(hashing, [], subs, e, minimal);
    assert Admitted(hashing, subs[i]);
  }

  lemma DifferentParts(first: seq<Submission>, second: seq<Submission>)
    requires SignaturesDiffer(first + second)
    ensures SignaturesDiffer(first) && AllDifferent(first) && AllDifferent(second)
    ensures forall i, j :: 0 <= i < |first| && 0 <= j < |second| ==>
      first[i].proof.signature != second[j].proof.signature
  {
    var all := first + second;
    assert forall i :: 0 <= i < |first| ==> all[i] == first[i];
    forall i, j | 0 <= i < j < |second| ensures !SameProof(second[i].proof, second[j].proof) {
      assert all[|first| + i] == second[i] && all[|first| + j] == second[j];
    }
    forall i, j | 0 <= i < |first| && 0 <= j < |second| ensures first[i].proof.signature != second[j].proof.signature {
      assert all[i] == first[i] && all[|first| + j] == second[j];
    }
  }

  lemma DrainedDiffer(hashing: Hashing, minimal: nat, first: seq<Submission>, second: seq<Submission>, t0: Tables,
                      hs: seq<Bytes>, rs: seq<Record>, t: Tables)
    requires t0.proofs == Fresh(first) && DrainedTo(hashing, minimal, t0, hs, rs, t)
    requires forall i, j :: 0 <= i < |first| && 0 <= j < |second| ==>
      first[i].proof.signature != second[j].proof.signature
    ensures forall i, j :: 0 <= i < |t.proofs| && 0 <= j < |second| ==> !SameProof(t.proofs[i], second[j].proof)
  {
    hide SignaturesClear, RecordIdsClear, RecordsFor, QuorumHashes, SetOf;
  }
}
