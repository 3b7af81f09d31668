/** The contract and the Bitcoin library together: what an entry of the index stands for on mainnet. */
module EndToEnd {
  import opened Clarity
  import opened Registry
  import opened Oracle
  import opened OracleRuns
  import opened OracleTheorems
  import opened BitcoinReader
  import opened Merkle
  import opened Mined

  /** The oracle's mined check is the mainnet dispatch of the Bitcoin library on this chain. */
  ghost predicate Mainnet(env: Env, chain: Chain) {
    forall tx, block, proof :: env.verifyMined(tx, block, proof) == VerifyMined(chain, true, tx, block, proof)
  }

  /** Every proof submitted in the run has the shape the contract's argument types allow. */
  ghost predicate ProofsTyped(calls: seq<Sent>) {
    forall n, t :: 0 <= n < |calls| && calls[n].call.IndexMany? && t in calls[n].call.txs ==> ProofTyped(t.proof)
  }

  /** `tx` hashes up to the merkle root of `block`, whose header is the burn chain's at that height. */
  ghost predicate Included(chain: Chain, tx: Bytes, block: Block, proof: Proof) {
    && DispatchTxid(chain.sha, tx).Ok?
    && |block.header| >= 80
    && chain.headerHashAt(block.height) == Some(Reverse(Sha2(chain.sha, block.header)))
    && 1 <= proof.treeDepth == |proof.hashes|
    && Climb(chain.sha, DispatchTxid(chain.sha, tx).value, proof.hashes, proof.txIndex) == block.header[36..68]
  }

  /** From an empty registry, after any run: an indexed event has a quorum over exactly that event, and its
      Bitcoin transaction is included, by a submitted proof, in the burn-chain block of the recorded height. */
  lemma IndexedIsSignedAndIncluded(env: Env, chain: Chain, s: State, calls: seq<Sent>, key: IndexKey)
    returns (c: Commit, m: Commit)
    requires Mainnet(env, chain) && ProofsTyped(calls)
    requires s.registry.indexed == map[] && s.registry.mined == map[]
    requires key in Run(env, s, calls).registry.indexed
    ensures c in Log(env, s, calls) && m in Log(env, s, calls)
    ensures KeyOf(c.signed.tx) == key && QuorumMet(env, c)
    ensures var mined := Run(env, s, calls).registry.mined;
      && key.txHash in mined && m.signed.tx.bitcoinTx == key.txHash && m.signed.block.height == mined[key.txHash]
      && Included(chain, key.txHash, m.signed.block, m.signed.proof)
  {
    hide Run, Log, VerifyMined, Replay, LogAllowed, DispatchTxid, Climb, QuorumMet, ProofTyped;
    var log := Log(env, s, calls);
    var i, n := QuorumSafety(env, s, calls, key);
    c := log[i];
    RunReplays(env, s, calls);
    LogMeetsQuorum(env, LedgerOf(s), log, i);
    var j := IndexedImpliesMined(env, s, calls, key.txHash);
    assert IndexedAreMined(LedgerOf(s));
    m := log[j];
    var k := LogOrigin(env, s, calls, j);
    VerifyMinedExact(chain, key.txHash, m.signed.block, m.signed.proof);
    MinedVerdict(chain, key.txHash, m.signed.block, m.signed.proof);
  }

  lemma MinedVerdict(chain: Chain, tx: Bytes, block: Block, proof: Proof)
    ensures VerifyMined(chain, true, tx, block, proof).Ok? ==> VerifyMined(chain, true, tx, block, proof) == Ok(true)
  {
    hide WasSegwitTxMined, WasTxMined;
  }

  // ---------- what inclusion means for the block ----------

  /** The 64 bytes hashed for node `j` of the level above level `k` of the tree. */
  function NodePair(sha: Sha, txids: seq<Bytes>, k: nat, j: nat): (r: Bytes)
    requires |txids| >= 1 && 2 * j < |LevelAt(sha, txids, k)| && forall i :: 0 <= i < |txids| ==> |txids[i]| == 32
    ensures |r| == 64
  {
    var nodes := LevelAt(sha, txids, k);
    nodes[2 * j] + nodes[Child(|nodes|, j, 1)]
  }

  /** `hashed` is the join of two nodes of level `k`. */
  ghost predicate IsNodePair(sha: Sha, txids: seq<Bytes>, k: nat, hashed: Bytes)
    requires |txids| >= 1 && forall i :: 0 <= i < |txids| ==> |txids[i]| == 32
  {
    exists j: nat :: 2 * j < |LevelAt(sha, txids, k)| && hashed == NodePair(sha, txids, k, j)
  }

  /** The hashes before the last `height` ones already climb from `x` to one of the txids. */
  ghost predicate ClimbsToTxid(sha: Sha, txids: seq<Bytes>, x: Bytes, proof: Proof) {
    var extra := |proof.hashes| - Height(|txids|);
    extra > 0 && Climb(sha, x, proof.hashes[..extra], proof.txIndex) in txids
  }

  lemma {:induction false} NodeIsPair(sha: Sha, txids: seq<Bytes>, k: nat, j: nat)
    requires |txids| >= 1 && forall i :: 0 <= i < |txids| ==> |txids[i]| == 32
    ensures j < |LevelAt(sha, txids, k + 1)| <==> 2 * j < |LevelAt(sha, txids, k)|
    ensures 2 * j < |LevelAt(sha, txids, k)| ==>
      LevelAt(sha, txids, k + 1)[j] == Sha2(sha, NodePair(sha, txids, k, j))
  {
    LevelAtNext(sha, txids, k);
  }

  /** A collision found in a proof against these txids: at step `i` of the tree's own path, or between the hashed
      bytes and the two nodes that the proof's position stands for. */
  ghost predicate ProofCollides(sha: Sha, txids: seq<Bytes>, hashed: Bytes, proof: Proof, i: nat)
    requires |txids| >= 1 && forall k :: 0 <= k < |txids| ==> |txids[k]| == 32
  {
    || PathCollides(sha, txids, Sha2(sha, hashed), proof, i)
    || NodesCollide(sha, txids, hashed, proof)
  }

  ghost predicate NodesCollide(sha: Sha, txids: seq<Bytes>, hashed: Bytes, proof: Proof)
    requires |txids| >= 1 && forall k :: 0 <= k < |txids| ==> |txids[k]| == 32
  {
    var d, h := proof.treeDepth, Height(|txids|);
    d < h && PairCollides(sha, txids, h - d - 1, LeafAt(|LevelAt(sha, txids, h - d)|, proof.txIndex), hashed)
  }

  /** The two nodes under node `j` above level `k` collide with `hashed`. */
  ghost predicate PairCollides(sha: Sha, txids: seq<Bytes>, k: nat, j: nat, hashed: Bytes)
    requires |txids| >= 1 && forall i :: 0 <= i < |txids| ==> |txids[i]| == 32
  {
    2 * j < |LevelAt(sha, txids, k)| && Collision(sha, hashed, NodePair(sha, txids, k, j))
  }

  /** What an accepted inclusion proof says about a block with these txids, whatever depth it claims: the
      txid is one of them; or the depth is too small and the hashed bytes are the 64 bytes of two tree nodes;
      or it is too large and the txid is itself below one of the txids - or the proof contains a collision. */
  lemma {:induction false} IncludedIsInBlock(chain: Chain, tx: Bytes, block: Block, proof: Proof, txids: seq<Bytes>)
    returns (i: nat)
    requires Included(chain, tx, block, proof) && ProofTyped(proof)
    requires |txids| >= 1 && (forall k :: 0 <= k < |txids| ==> |txids[k]| == 32)
    requires block.header[36..68] == Root(chain.sha, txids)
    ensures var d, h, hashed := proof.treeDepth, Height(|txids|), HashedBytes(tx).value;
      || (d == h && DispatchTxid(chain.sha, tx).value in txids)
      || (d < h && |hashed| == 64 && IsNodePair(chain.sha, txids, h - d - 1, hashed))
      || (d > h && ClimbsToTxid(chain.sha, txids, DispatchTxid(chain.sha, tx).value, proof))
      || ProofCollides(chain.sha, txids, hashed, proof, i)
  {
    hide HashedBytes, Climb, Root, SiblingPath, Height, LevelAt, NodePair, PathCollides;
    var sha, d, h := chain.sha, proof.treeDepth, Height(|txids|);
    var x: Bytes := DispatchTxid(sha, tx).value;
    i := ClimbsOnPath(sha, txids, x, proof);
    if OnPath(sha, txids, x, proof) {
      if d == h {
        LevelZero(sha, txids);
      } else if d < h {
        NodeIsPair(sha, txids, h - d - 1, LeafAt(|LevelAt(sha, txids, h - d)|, proof.txIndex));
      }
    }
  }

  lemma LevelZero(sha: Sha, txids: seq<Bytes>)
    requires |txids| >= 1
    ensures LevelAt(sha, txids, 0) == txids
  {
  }

  /** The txids of raw transactions. */
  function TxidsOf(sha: Sha, raws: seq<Bytes>): (r: seq<Bytes>)
    ensures |r| == |raws| && forall k :: 0 <= k < |r| ==> |r[k]| == 32
  {
    seq(|raws|, k requires 0 <= k < |raws| => Sha2(sha, raws[k]))
  }

  /** The header's merkle root is that of these transactions. */
  ghost predicate BlockHolds(sha: Sha, header: Bytes, raws: seq<Bytes>) {
    |raws| >= 1 && |header| >= 80 && header[36..68] == Root(sha, TxidsOf(sha, raws))
  }

  /** The hashed bytes are one of the transactions, and the depth is the tree's. */
  ghost predicate IsTransaction(hashed: Bytes, proof: Proof, raws: seq<Bytes>) {
    proof.treeDepth == Height(|raws|) && hashed in raws
  }

  /** The depth is too small, and the hashed bytes are two nodes of the tree. */
  ghost predicate IsTwoNodes(sha: Sha, hashed: Bytes, proof: Proof, raws: seq<Bytes>)
    requires |raws| >= 1
  {
    var d, h := proof.treeDepth, Height(|raws|);
    d < h && |hashed| == 64 && IsNodePair(sha, TxidsOf(sha, raws), h - d - 1, hashed)
  }

  /** The depth is too large, and one of the transactions, of at most 64 bytes, consists of a value that the
      proof's first hashes reach from `x` and of the next hash. */
  ghost predicate IsInside(sha: Sha, x: Bytes, proof: Proof, raws: seq<Bytes>) {
    var extra := |proof.hashes| - Height(|raws|);
    && proof.treeDepth > Height(|raws|) && extra > 0
    && exists k :: 0 <= k < |raws| && |raws[k]| <= 64
                   && raws[k] == LastJoin(sha, x, proof.hashes[..extra], proof.txIndex)
  }

  ghost predicate AllLong(raws: seq<Bytes>) {
    forall k :: 0 <= k < |raws| ==> |raws[k]| > 64
  }

  /** A collision found in a proof against this block: in the proof itself, or between transaction `k` and the
      hashed bytes, or between transaction `k` and the bytes of the last step below a leaf. */
  ghost predicate BlockCollides(sha: Sha, raws: seq<Bytes>, hashed: Bytes, proof: Proof, i: nat, k: nat)
    requires |raws| >= 1
  {
    var extra := |proof.hashes| - Height(|raws|);
    || ProofCollides(sha, TxidsOf(sha, raws), hashed, proof, i)
    || (k < |raws| && Collision(sha, hashed, raws[k]))
    || (&& k < |raws| && extra > 0
        && Collision(sha, LastJoin(sha, Sha2(sha, hashed), proof.hashes[..extra], proof.txIndex), raws[k]))
  }

  /** The same in terms of the block's transactions, for every block: an included transaction is one of them, or
      two nodes of their tree, or is inside one of them - or the proof and the block contain a collision. In a
      block of transactions all longer than 64 bytes it is one of them exactly when the hashed bytes are not 64
      long, and exactly when the claimed depth is the tree's. */
  lemma {:induction false} IncludedIsMember(chain: Chain, tx: Bytes, block: Block, proof: Proof, raws: seq<Bytes>)
    returns (i: nat, k: nat)
    requires Included(chain, tx, block, proof) && ProofTyped(proof) && BlockHolds(chain.sha, block.header, raws)
    ensures var hashed := HashedBytes(tx).value;
      || (&& (|| IsTransaction(hashed, proof, raws) || IsTwoNodes(chain.sha, hashed, proof, raws)
              || IsInside(chain.sha, DispatchTxid(chain.sha, tx).value, proof, raws))
          && (AllLong(raws) ==>
                (hashed in raws <==> |hashed| != 64) && (hashed in raws <==> proof.treeDepth == Height(|raws|))))
      || BlockCollides(chain.sha, raws, hashed, proof, i, k)
  {
    hide HashedBytes, Root, Height, LevelAt, NodePair, IsNodePair, Climb, LastJoin, ProofCollides;
    var sha, txids := chain.sha, TxidsOf(chain.sha, raws);
    k := 0;
    i := IncludedIsInBlock(chain, tx, block, proof, txids);
    if !ProofCollides(sha, txids, HashedBytes(tx).value, proof, i) && proof.treeDepth >= Height(|raws|) {
      var x: Bytes := DispatchTxid(sha, tx).value;
      if proof.treeDepth == Height(|raws|) {
        k :| 0 <= k < |txids| && txids[k] == x;
      } else {
        var first := proof.hashes[..|proof.hashes| - Height(|raws|)];
        k :| 0 <= k < |txids| && txids[k] == Climb(sha, x, first, proof.txIndex);
        ClimbLast(sha, x, first, proof.txIndex);
      }
    }
  }

  /** The whole pipeline, after any run from an empty registry: for an indexed event there is a burn-chain block
      of the recorded height such that, if `raws` gives that block's transactions, the event's transaction is one
      of them, or two nodes of their tree, or inside one of them - or the proof and that block contain a
      collision. When those are all longer than 64 bytes, it is one of them exactly when the bytes hashed for it
      are not 64 long. */
  lemma {:induction false} IndexedIsInBlock(env: Env, chain: Chain, raws: Bytes -> seq<Bytes>, s: State,
                                            calls: seq<Sent>, key: IndexKey)
    returns (block: Block, proof: Proof, i: nat, k: nat)
    requires Mainnet(env, chain) && ProofsTyped(calls)
    requires s.registry.indexed == map[] && s.registry.mined == map[]
    requires key in Run(env, s, calls).registry.indexed
    ensures key.txHash in Run(env, s, calls).registry.mined
    ensures block.height == Run(env, s, calls).registry.mined[key.txHash]
    ensures Submitted(calls, key.txHash, block, proof) && Included(chain, key.txHash, block, proof)
    ensures var hashed, txs := HashedBytes(key.txHash).value, raws(block.header);
      BlockHolds(chain.sha, block.header, txs) ==>
        || (&& (|| IsTransaction(hashed, proof, txs) || IsTwoNodes(chain.sha, hashed, proof, txs)
                || IsInside(chain.sha, DispatchTxid(chain.sha, key.txHash).value, proof, txs))
            && (AllLong(txs) ==> (hashed in txs <==> |hashed| != 64)))
        || BlockCollides(chain.sha, txs, hashed, proof, i, k)
  {
    hide Run, Log, HashedBytes, Root, Height, Climb, QuorumMet, ProofTyped, ProofsTyped, Mainnet, IsTransaction,
      IsTwoNodes, IsInside, AllLong, BlockCollides;
    var c, m := IndexedIsSignedAndIncluded(env, chain, s, calls, key);
    block, proof, i, k := m.signed.block, m.signed.proof, 0, 0;
    LoggedSubmitted(env, s, calls, m);
    if BlockHolds(chain.sha, block.header, raws(block.header)) {
      i, k := IncludedIsMember(chain, key.txHash, block, proof, raws(block.header));
    }
  }

  /** Some call of the run carried an event of this transaction with this block and proof. */
  ghost predicate Submitted(calls: seq<Sent>, tx: Bytes, block: Block, proof: Proof) {
    exists n, t :: 0 <= n < |calls| && calls[n].call.IndexMany? && t in calls[n].call.txs
                   && t.tx.bitcoinTx == tx && t.block == block && t.proof == proof
  }

  lemma LoggedSubmitted(env: Env, s: State, calls: seq<Sent>, m: Commit)
    requires ProofsTyped(calls) && m in Log(env, s, calls)
    ensures ProofTyped(m.signed.proof)
    ensures Submitted(calls, m.signed.tx.bitcoinTx, m.signed.block, m.signed.proof)
  {
    hide Run, Log, ProofTyped;
    var i :| 0 <= i < |Log(env, s, calls)| && Log(env, s, calls)[i] == m;
    var n := LogOrigin(env, s, calls, i);
  }

  /** Why a length of 64 is excluded: was-tx-mined? hashes the buffer without parsing it, and the depth is the
      submitter's. In every block of three or more transactions, all longer than 64 bytes, the 64 bytes of
      two tree nodes pass as a mined transaction of the block - for every inner node under the root whose
      bytes do not look like segwit - although no transaction has that txid, or transaction `i` collides with it. */
  lemma {:induction false} NodePairIsMined(chain: Chain, block: Block, raws: seq<Bytes>, k: nat, tx: Bytes)
    returns (proof: Proof, i: nat)
    requires |raws| <= Pow2(14) && AllLong(raws) && BlockHolds(chain.sha, block.header, raws)
    requires chain.headerHashAt(block.height) == Some(Reverse(Sha2(chain.sha, block.header)))
    requires k + 1 < Height(|raws|) && IsNodePair(chain.sha, TxidsOf(chain.sha, raws), k, tx)
    requires |tx| == 64 && tx[4] != 0
    ensures ProofTyped(proof) && VerifyMined(chain, true, tx, block, proof) == Ok(true)
    ensures tx !in raws && DispatchTxid(chain.sha, tx) == Ok(Sha2(chain.sha, tx))
    ensures Sha2(chain.sha, tx) in TxidsOf(chain.sha, raws) ==> i < |raws| && Collision(chain.sha, tx, raws[i])
  {
    hide Root, Height, LevelAt, NodePair, Climb, SiblingPath, Pow2, VerifyMined, HashedBytes;
    var sha, txids := chain.sha, TxidsOf(chain.sha, raws);
    var j: nat :| 2 * j < |LevelAt(sha, txids, k)| && tx == NodePair(sha, txids, k, j);
    var nodes := LevelAt(sha, txids, k + 1);
    NodeIsPair(sha, txids, k, j);
    proof := Proof(j, SiblingPath(sha, nodes, j), Height(|nodes|));
    LevelAtHeight(sha, txids, k + 1);
    SiblingPathClimbs(sha, nodes, j);
    SmallProof(|raws|, |nodes|, j, k + 1);
    LegacyBytes(tx);
    VerifyMinedExact(chain, tx, block, proof);
    i := 0;
    if Sha2(sha, tx) in txids {
      i :| 0 <= i < |txids| && txids[i] == Sha2(sha, tx);
    }
  }

  /** Why short transactions matter: the hash of `tx` next to at most 32 more bytes, on either side, may itself be
      a transaction of the block. Then `tx`, of any length and in either form, passes as a transaction of that
      block with a depth one above the tree's. */
  lemma {:induction false} InsideIsMined(chain: Chain, block: Block, raws: seq<Bytes>, tx: Bytes, rest: Bytes,
                                         index: nat)
    returns (proof: Proof)
    requires |raws| <= Pow2(13) && BlockHolds(chain.sha, block.header, raws)
    requires chain.headerHashAt(block.height) == Some(Reverse(Sha2(chain.sha, block.header)))
    requires DispatchTxid(chain.sha, tx).Ok? && |rest| <= 32 && index / 2 < |raws|
    requires raws[index / 2] == JoinBytes(DispatchTxid(chain.sha, tx).value, rest, index)
    ensures ProofTyped(proof) && VerifyMined(chain, true, tx, block, proof) == Ok(true)
    ensures proof.treeDepth == Height(|raws|) + 1
    ensures IsInside(chain.sha, DispatchTxid(chain.sha, tx).value, proof, raws)
  {
    hide Root, Height, Climb, SiblingPath, Pow2, VerifyMined, HashedBytes, LastJoin, JoinBytes;
    var sha, txids := chain.sha, TxidsOf(chain.sha, raws);
    var x: Bytes := DispatchTxid(sha, tx).value;
    proof := Proof(index, [rest] + SiblingPath(sha, txids, index / 2), Height(|raws|) + 1);
    PathBelow(sha, txids, x, rest, index);
    ExtendedProof(|raws|, index);
    VerifyMinedExact(chain, tx, block, proof);
    assert proof.hashes[..1] == [rest];
    ClimbFirst(sha, x, rest, [], index);
    ClimbLast(sha, x, [rest], index);
  }

  /** The path of a leaf, with one more step before it that climbs to the leaf. */
  lemma {:induction false} PathBelow(sha: Sha, txids: seq<Bytes>, x: Bytes, rest: Bytes, index: nat)
    requires index / 2 < |txids| && |rest| <= 32 && (forall i :: 0 <= i < |txids| ==> |txids[i]| == 32)
    requires Join(sha, x, rest, index) == txids[index / 2]
    ensures var hs := [rest] + SiblingPath(sha, txids, index / 2);
      && |hs| == Height(|txids|) + 1 && (forall k :: 0 <= k < |hs| ==> |hs[k]| <= 32)
      && Climb(sha, x, hs, index) == Root(sha, txids)
  {
    hide Root, Height, Climb, SiblingPath, Join;
    SiblingPathClimbs(sha, txids, index / 2);
    ClimbFirst(sha, x, rest, SiblingPath(sha, txids, index / 2), index);
  }

  lemma ClimbFirst(sha: Sha, x: Bytes, h: Bytes, hs: seq<Bytes>, index: nat)
    ensures Climb(sha, x, [h] + hs, index) == Climb(sha, Join(sha, x, h, index), hs, index / 2)
    ensures LastJoin(sha, x, [h], index) == JoinBytes(x, h, index)
  {
    assert ([h] + hs)[1..] == hs;
    assert [h][..0] == [];
  }

  lemma {:induction false} ExtendedProof(n: nat, index: nat)
    requires n <= Pow2(13) && index / 2 < n
    ensures Height(n) <= 13 && Pow2(Height(n) + 1) + index <= MAX_UINT
  {
    hide Pow2;
    HeightBound(n, 13);
    Pow2Monotone(13, 14);
    Pow2Monotone(Height(n) + 1, 14);
    Pow2Values();
  }

  lemma LegacyBytes(tx: Bytes)
    requires |tx| > 4 && tx[4] != 0
    ensures HashedBytes(tx) == Ok(tx)
  {
    hide DropWitness, IsSegwitTx;
    SegwitByte(tx);
  }

  lemma {:induction false} SmallProof(n: nat, m: nat, j: nat, k: nat)
    requires n <= Pow2(14) && j < m <= n && Height(m) == Height(n) - k
    ensures Height(m) <= 14 && Pow2(Height(m)) + j <= MAX_UINT
  {
    hide Pow2;
    HeightBound(n, 14);
    Pow2Monotone(Height(m), 14);
    Pow2Values();
  }
}
