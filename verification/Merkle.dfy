/** The Merkle-proof verifier of clarity-bitcoin, Bitcoin's Merkle tree, and what acceptance means. */
module Merkle {
  import opened Clarity

  const ERR_PROOF_TOO_SHORT: nat := 1006
  const MAX_PROOF: nat := 14

  type Sha = Bytes -> Hash32

  datatype Proof = Proof(txIndex: nat, hashes: seq<Bytes>, treeDepth: nat)

  /** The bounds of the contract's argument type: at most 14 hashes of at most 32 bytes. */
  predicate ProofTyped(proof: Proof) {
    && |proof.hashes| <= MAX_PROOF
    && (forall k :: 0 <= k < |proof.hashes| ==> |proof.hashes[k]| <= 32)
    && proof.txIndex <= MAX_UINT
  }

  function Sha2(sha: Sha, b: Bytes): Hash32 {
    sha(sha(b))
  }

  function Pow2(n: nat): (r: nat)
    ensures r >= 1
  {
    if n == 0 then 1 else 2 * Pow2(n - 1)
  }

  function IsBitSet(val: nat, bit: nat): bool
    decreases bit
  {
    if bit == 0 then val % 2 == 1 else IsBitSet(val / 2, bit - 1)
  }

  datatype ProofState = ProofState(path: nat, rootHash: Bytes, proofHashes: seq<Bytes>, treeDepth: nat,
                                   curHash: Bytes, verified: bool)

  function InnerVerify(sha: Sha, ctr: nat, res: Outcome<ProofState>): Outcome<ProofState> {
    var state :- res;
    if state.verified then Ok(state)
    else if ctr >= state.treeDepth then Ok(state.(verified := false))
    else if ctr >= |state.proofHashes| then Abort
    else
      var isLeft := IsBitSet(state.path, ctr);
      var h1 := if isLeft then state.proofHashes[ctr] else state.curHash;
      var h2 := if isLeft then state.curHash else state.proofHashes[ctr];
      var nextHash := Sha2(sha, h1 + h2);
      Ok(state.(curHash := nextHash, verified := 1 + ctr == |state.proofHashes| && nextHash == state.rootHash))
  }

  /** The fold over the counters `ctr` to 13. */
  function FoldVerify(sha: Sha, ctr: nat, res: Outcome<ProofState>): Outcome<ProofState>
    decreases MAX_PROOF - ctr
  {
    if ctr >= MAX_PROOF then res else FoldVerify(sha, ctr + 1, InnerVerify(sha, ctr, res))
  }

  function VerifyMerkleProof(sha: Sha, reversedTxid: Bytes, merkleRoot: Bytes, proof: Proof): Outcome<bool> {
    if proof.treeDepth > |proof.hashes| then Err(ERR_PROOF_TOO_SHORT)
    else if Pow2(proof.treeDepth) + proof.txIndex > MAX_UINT then Abort
    else
      var state :- FoldVerify(sha, 0, Ok(ProofState(Pow2(proof.treeDepth) + proof.txIndex, merkleRoot, proof.hashes,
                                               proof.treeDepth, reversedTxid, false)));
      Ok(state.verified)
  }

  // ---------- the plain recursive climb ----------

  /** Hash the siblings in one after the other, on the side given by the bits of `index`. */
  function Climb(sha: Sha, cur: Bytes, hashes: seq<Bytes>, index: nat): Bytes
    decreases |hashes|
  {
    if hashes == [] then cur
    else Climb(sha, Join(sha, cur, hashes[0], index), hashes[1..], index / 2)
  }

  function Join(sha: Sha, cur: Bytes, sibling: Bytes, index: nat): Hash32 {
    Sha2(sha, JoinBytes(cur, sibling, index))
  }

  /** The two values in the order the lowest bit of `index` gives. */
  function JoinBytes(cur: Bytes, sibling: Bytes, index: nat): Bytes {
    if index % 2 == 1 then sibling + cur else cur + sibling
  }

  function Shift(index: nat, n: nat): nat
    decreases n
  {
    if n == 0 then index else Shift(index / 2, n - 1)
  }

  lemma {:induction false} ShiftStep(index: nat, n: nat)
    ensures Shift(index, n + 1) == Shift(index, n) / 2
    ensures IsBitSet(index, n) <==> Shift(index, n) % 2 == 1
    decreases n
  {
    if n > 0 {
      ShiftStep(index / 2, n - 1);
    }
  }

  /** The guard bit that the contract adds at position `depth` does not disturb the bits below it. */
  lemma {:induction false} GuardBit(depth: nat, index: nat, bit: nat)
    requires bit < depth
    ensures IsBitSet(Pow2(depth) + index, bit) == IsBitSet(index, bit)
    decreases bit
  {
    if bit > 0 {
      assert (Pow2(depth) + index) / 2 == Pow2(depth - 1) + index / 2;
      GuardBit(depth - 1, index / 2, bit - 1);
    }
  }

  /** Once the flag is settled - raised, or the depth used up - the remaining steps keep it. */
  lemma {:induction false} FoldSettled(sha: Sha, ctr: nat, state: ProofState)
    requires state.verified || ctr >= state.treeDepth
    ensures FoldVerify(sha, ctr, Ok(state)) == Ok(state)
    decreases MAX_PROOF - ctr
  {
    if ctr < MAX_PROOF {
      FoldSettled(sha, ctr + 1, state);
    }
  }

  lemma {:induction false} FoldIsClimb(sha: Sha, ctr: nat, state: ProofState, index: nat)
    requires state.treeDepth == |state.proofHashes| <= MAX_PROOF
    requires ctr < state.treeDepth && !state.verified && state.path == Pow2(state.treeDepth) + index
    ensures FoldVerify(sha, ctr, Ok(state)).Ok?
    ensures FoldVerify(sha, ctr, Ok(state)).value.verified
       <==> Climb(sha, state.curHash, state.proofHashes[ctr..], Shift(index, ctr)) == state.rootHash
    decreases MAX_PROOF - ctr
  {
    hide IsBitSet, Join, InnerVerify;
    ShiftStep(index, ctr);
    InnerIsJoin(sha, ctr, state, index);
    var next := InnerVerify(sha, ctr, Ok(state)).value;
    var rest := state.proofHashes[ctr..];
    assert rest[1..] == state.proofHashes[ctr + 1..];
    assert next.curHash == Join(sha, state.curHash, rest[0], Shift(index, ctr));
    if ctr + 1 == state.treeDepth {
      FoldSettled(sha, ctr + 1, next);
    } else {
      FoldIsClimb(sha, ctr + 1, next, index);
    }
  }

  /** One step of the fold before the depth is used up. */
  lemma InnerIsJoin(sha: Sha, ctr: nat, state: ProofState, index: nat)
    requires ctr < state.treeDepth == |state.proofHashes| && !state.verified
    requires state.path == Pow2(state.treeDepth) + index
    ensures var cur := Join(sha, state.curHash, state.proofHashes[ctr], Shift(index, ctr));
      InnerVerify(sha, ctr, Ok(state))
      == Ok(state.(curHash := cur, verified := 1 + ctr == |state.proofHashes| && cur == state.rootHash))
  {
    hide IsBitSet, Pow2;
    GuardBit(state.treeDepth, index, ctr);
    ShiftStep(index, ctr);
  }

  lemma {:induction false} FoldNeverVerifies(sha: Sha, ctr: nat, state: ProofState)
    requires state.treeDepth < |state.proofHashes| && !state.verified
    ensures FoldVerify(sha, ctr, Ok(state)).Ok? && !FoldVerify(sha, ctr, Ok(state)).value.verified
    decreases MAX_PROOF - ctr
  {
    if ctr < MAX_PROOF {
      FoldNeverVerifies(sha, ctr + 1, InnerVerify(sha, ctr, Ok(state)).value);
    }
  }

  /** The flagged 14-step fold, exactly: too short, or overflowing, or true precisely when the depth is
      the number of hashes, is not 0, and the climb by the bits of the index reaches the root. */
  lemma {:induction false} MerkleExact(sha: Sha, txid: Bytes, root: Bytes, proof: Proof)
    requires ProofTyped(proof)
    ensures VerifyMerkleProof(sha, txid, root, proof) ==
      if proof.treeDepth > |proof.hashes| then Err(ERR_PROOF_TOO_SHORT)
      else if Pow2(proof.treeDepth) + proof.txIndex > MAX_UINT then Abort
      else Ok(1 <= proof.treeDepth == |proof.hashes| && Climb(sha, txid, proof.hashes, proof.txIndex) == root)
  {
    hide FoldVerify, Climb;
    if proof.treeDepth <= |proof.hashes| && Pow2(proof.treeDepth) + proof.txIndex <= MAX_UINT {
      var state := ProofState(Pow2(proof.treeDepth) + proof.txIndex, root, proof.hashes, proof.treeDepth, txid, false);
      if proof.treeDepth < |proof.hashes| {
        FoldNeverVerifies(sha, 0, state);
      } else if proof.treeDepth == 0 {
        FoldSettled(sha, 0, state);
      } else {
        FoldIsClimb(sha, 0, state, proof.txIndex);
        assert proof.hashes[0..] == proof.hashes;
      }
    }
  }

  // ---------- climbs step by step ----------

  lemma {:induction false} ClimbSplit(sha: Sha, x: Bytes, hs: seq<Bytes>, index: nat, e: nat)
    requires e <= |hs|
    ensures Climb(sha, x, hs, index) == Climb(sha, Climb(sha, x, hs[..e], index), hs[e..], Shift(index, e))
    decreases e
  {
    hide Join;
    if e == 0 {
      assert hs[0..] == hs;
    } else {
      assert hs[..e][1..] == hs[1..][..e - 1] && hs[1..][e - 1..] == hs[e..];
      ClimbSplit(sha, Join(sha, x, hs[0], index), hs[1..], index / 2, e - 1);
    }
  }

  /** What the last step of a climb hashes: the value reached before it, and the last sibling. */
  function LastJoin(sha: Sha, x: Bytes, hs: seq<Bytes>, index: nat): Bytes
    requires hs != []
  {
    var n := |hs| - 1;
    JoinBytes(Climb(sha, x, hs[..n], index), hs[n], Shift(index, n))
  }

  lemma {:induction false} ClimbLast(sha: Sha, x: Bytes, hs: seq<Bytes>, index: nat)
    requires hs != []
    ensures Climb(sha, x, hs, index) == Sha2(sha, LastJoin(sha, x, hs, index))
    ensures |x| == 32 && (forall k :: 0 <= k < |hs| ==> |hs[k]| <= 32) ==> |LastJoin(sha, x, hs, index)| <= 64
  {
    var n := |hs| - 1;
    var before := Climb(sha, x, hs[..n], index);
    ClimbSplit(sha, x, hs, index, n);
    assert hs[n..] == [hs[n]] && [hs[n]][1..] == [];
    assert Climb(sha, before, [hs[n]], Shift(index, n))
        == Climb(sha, Join(sha, before, hs[n], Shift(index, n)), [], Shift(index, n) / 2);
    ClimbWidth(sha, x, hs[..n], index);
  }

  lemma {:induction false} ClimbWidth(sha: Sha, x: Bytes, hs: seq<Bytes>, index: nat)
    ensures |x| == 32 ==> |Climb(sha, x, hs, index)| == 32
    decreases |hs|
  {
    if hs != [] {
      ClimbWidth(sha, Join(sha, x, hs[0], index), hs[1..], index / 2);
    }
  }

  // ---------- binding ----------

  /** Different buffers with one double hash. */
  ghost predicate Collision(sha: Sha, a: Bytes, b: Bytes) {
    a != b && Sha2(sha, a) == Sha2(sha, b)
  }

  /** The buffers of at most 64 bytes that two climbs from one position hash at step `i` are a collision. */
  ghost predicate ClimbsCollide(sha: Sha, x: Bytes, hs: seq<Bytes>, y: Bytes, ks: seq<Bytes>, index: nat, i: nat) {
    && i < |hs| && i < |ks|
    && var a, b := LastJoin(sha, x, hs[..i + 1], index), LastJoin(sha, y, ks[..i + 1], index);
       |a| <= 64 && |b| <= 64 && Collision(sha, a, b)
  }

  lemma JoinBinds(x: Bytes, s: Bytes, y: Bytes, t: Bytes, right: bool)
    requires |x| == |y|
    requires if right then s + x == t + y else x + s == y + t
    ensures x == y && s == t
  {
    var whole := if right then s + x else x + s;
    var cut := if right then |s| else |x|;
    assert cut == |whole| - |if right then y else t|;
    assert whole[..cut] == (if right then s else x) && whole[cut..] == (if right then x else s);
    assert whole[..cut] == (if right then t else y) && whole[cut..] == (if right then y else t);
  }

  /** Two 32-byte leaves that climb to one value from the same position at the same depth are equal, and
      so are their sibling paths, or the two climbs collide at step `i`. */
  lemma {:induction false} ClimbBinds(sha: Sha, x: Bytes, hs: seq<Bytes>, y: Bytes, ks: seq<Bytes>, index: nat)
    returns (i: nat)
    requires |x| == |y| == 32 && |hs| == |ks|
    requires forall k :: 0 <= k < |hs| ==> |hs[k]| <= 32 && |ks[k]| <= 32
    requires Climb(sha, x, hs, index) == Climb(sha, y, ks, index)
    ensures (x == y && hs == ks) || ClimbsCollide(sha, x, hs, y, ks, index, i)
    decreases |hs|
  {
    hide LastJoin;
    i := 0;
    if hs != [] {
      var n := |hs| - 1;
      assert hs[..n + 1] == hs && ks[..n + 1] == ks;
      ClimbLast(sha, x, hs, index);
      ClimbLast(sha, y, ks, index);
      if LastJoin(sha, x, hs, index) != LastJoin(sha, y, ks, index) {
        i := n;
      } else {
        LastJoinBinds(sha, x, hs, y, ks, index);
        i := ClimbBinds(sha, x, hs[..n], y, ks[..n], index);
        if i < n {
          assert hs[..n][..i + 1] == hs[..i + 1] && ks[..n][..i + 1] == ks[..i + 1];
        }
        assert hs == hs[..n] + [hs[n]] && ks == ks[..n] + [ks[n]];
      }
    }
  }

  lemma LastJoinBinds(sha: Sha, x: Bytes, hs: seq<Bytes>, y: Bytes, ks: seq<Bytes>, index: nat)
    requires |x| == |y| == 32 && |hs| == |ks| > 0
    requires LastJoin(sha, x, hs, index) == LastJoin(sha, y, ks, index)
    ensures var n := |hs| - 1; hs[n] == ks[n] && Climb(sha, x, hs[..n], index) == Climb(sha, y, ks[..n], index)
  {
    hide Climb;
    var n := |hs| - 1;
    ClimbWidth(sha, x, hs[..n], index);
    ClimbWidth(sha, y, ks[..n], index);
    JoinBinds(Climb(sha, x, hs[..n], index), hs[n], Climb(sha, y, ks[..n], index), ks[n], Shift(index, n) % 2 == 1);
  }

  lemma {:induction false} MerkleBinding(sha: Sha, x: Bytes, y: Bytes, root: Bytes, p: Proof, q: Proof)
    returns (i: nat)
    requires ProofTyped(p) && ProofTyped(q) && |x| == |y| == 32
    requires p.txIndex == q.txIndex && p.treeDepth == q.treeDepth
    requires VerifyMerkleProof(sha, x, root, p) == Ok(true) && VerifyMerkleProof(sha, y, root, q) == Ok(true)
    ensures (x == y && p == q) || ClimbsCollide(sha, x, p.hashes, y, q.hashes, p.txIndex, i)
  {
    hide VerifyMerkleProof, Climb, ClimbsCollide;
    MerkleExact(sha, x, root, p);
    MerkleExact(sha, y, root, q);
    i := ClimbBinds(sha, x, p.hashes, y, q.hashes, p.txIndex);
  }

  // ---------- Bitcoin's tree: the last node of an odd level is paired with itself ----------

  function Level(sha: Sha, nodes: seq<Bytes>): (r: seq<Bytes>)
    ensures |r| == (|nodes| + 1) / 2
    ensures forall k :: 0 <= k < |r| ==> |r[k]| == 32
  {
    seq((|nodes| + 1) / 2, k requires 0 <= k < (|nodes| + 1) / 2 =>
      Sha2(sha, nodes[2 * k] + nodes[Child(|nodes|, k, 1)]))
  }

  /** The node of a level of `n` that stands as left (0) or right (1) child of node `parent` above. */
  function Child(n: nat, parent: nat, side: nat): (r: nat)
    requires side <= 1 && 2 * parent < n
    ensures r < n
  {
    if 2 * parent + side < n then 2 * parent + side else n - 1
  }

  function Root(sha: Sha, nodes: seq<Bytes>): Bytes
    requires |nodes| >= 1
    decreases |nodes|
  {
    if |nodes| == 1 then nodes[0] else Root(sha, Level(sha, nodes))
  }

  function Height(n: nat): nat {
    if n <= 1 then 0 else 1 + Height((n + 1) / 2)
  }

  /** Which leaf of `n` the walk down by the bits of `index` ends at; any index ends at some leaf,
      because a paired-with-itself node stands for its own subtree twice. */
  function LeafAt(n: nat, index: nat): (r: nat)
    requires n >= 1
    ensures r < n
    ensures index < n ==> r == index
    decreases n
  {
    if n == 1 then 0 else Child(n, LeafAt((n + 1) / 2, index / 2), index % 2)
  }

  /** The sibling of each node on the way up from position `index`. */
  function SiblingPath(sha: Sha, nodes: seq<Bytes>, index: nat): (r: seq<Bytes>)
    requires |nodes| >= 1
    ensures |r| == Height(|nodes|)
    ensures (forall k :: 0 <= k < |nodes| ==> |nodes[k]| <= 32) ==> forall k :: 0 <= k < |r| ==> |r[k]| <= 32
    decreases |nodes|
  {
    if |nodes| == 1 then []
    else
      var parent := LeafAt((|nodes| + 1) / 2, index / 2);
      [nodes[Child(|nodes|, parent, 1 - index % 2)]] + SiblingPath(sha, Level(sha, nodes), index / 2)
  }

  lemma PairJoins(sha: Sha, nodes: seq<Bytes>, parent: nat, index: nat)
    requires 2 * parent < |nodes|
    ensures var side := index % 2;
      Join(sha, nodes[Child(|nodes|, parent, side)], nodes[Child(|nodes|, parent, 1 - side)], index)
      == Level(sha, nodes)[parent]
  {
  }

  lemma {:induction false} SiblingPathClimbs(sha: Sha, nodes: seq<Bytes>, index: nat)
    requires |nodes| >= 1
    ensures Climb(sha, nodes[LeafAt(|nodes|, index)], SiblingPath(sha, nodes, index), index) == Root(sha, nodes)
    decreases |nodes|
  {
    hide Level, Child, Join;
    if |nodes| > 1 {
      var n, above := |nodes|, Level(sha, nodes);
      var parent := LeafAt(|above|, index / 2);
      var path := SiblingPath(sha, nodes, index);
      SiblingPathClimbs(sha, above, index / 2);
      assert path[1..] == SiblingPath(sha, above, index / 2);
      PairJoins(sha, nodes, parent, index);
    }
  }

  lemma {:induction false} HeightBound(n: nat, h: nat)
    requires n <= Pow2(h)
    ensures Height(n) <= h
    decreases h
  {
    if n > 1 {
      HeightBound((n + 1) / 2, h - 1);
    }
  }

  /** Completeness: every leaf of a block of 2 to 2^14 transactions is accepted with its sibling path. */
  lemma {:induction false} MerkleComplete(sha: Sha, leaves: seq<Bytes>, i: nat)
    requires 2 <= |leaves| <= Pow2(14) && i < |leaves|
    requires forall k :: 0 <= k < |leaves| ==> |leaves[k]| == 32
    ensures var proof := Proof(i, SiblingPath(sha, leaves, i), Height(|leaves|));
      ProofTyped(proof) && VerifyMerkleProof(sha, leaves[i], Root(sha, leaves), proof) == Ok(true)
  {
    var proof := Proof(i, SiblingPath(sha, leaves, i), Height(|leaves|));
    HeightBound(|leaves|, 14);
    Pow2Values();
    Pow2Monotone(Height(|leaves|), 14);
    SiblingPathClimbs(sha, leaves, i);
    MerkleExact(sha, leaves[i], Root(sha, leaves), proof);
  }

  lemma Pow2Values()
    ensures Pow2(14) == 16384
  {
    assert Pow2(4) == 16 && Pow2(8) == 16 * Pow2(4) && Pow2(12) == 16 * Pow2(8) && Pow2(14) == 4 * Pow2(12);
  }

  lemma {:induction false} Pow2Monotone(a: nat, b: nat)
    requires a <= b
    ensures Pow2(a) <= Pow2(b)
    decreases b
  {
    if a < b {
      Pow2Monotone(a, b - 1);
    }
  }

  // ---------- what is accepted against a block's root, at every claimed depth ----------

  /** Level `k` of the tree, counted from the leaves. */
  function LevelAt(sha: Sha, nodes: seq<Bytes>, k: nat): (r: seq<Bytes>)
    requires |nodes| >= 1
    ensures 1 <= |r| <= |nodes|
    ensures (forall i :: 0 <= i < |nodes| ==> |nodes[i]| == 32) ==> forall i :: 0 <= i < |r| ==> |r[i]| == 32
    decreases k
  {
    if k == 0 then nodes else LevelAt(sha, Level(sha, nodes), k - 1)
  }

  lemma {:induction false} LevelAtHeight(sha: Sha, nodes: seq<Bytes>, k: nat)
    requires |nodes| >= 1 && k <= Height(|nodes|)
    ensures var r := LevelAt(sha, nodes, k); Height(|r|) == Height(|nodes|) - k && Root(sha, r) == Root(sha, nodes)
    decreases k
  {
    if k > 0 {
      LevelAtHeight(sha, Level(sha, nodes), k - 1);
    }
  }

  lemma {:induction false} LevelAtNext(sha: Sha, nodes: seq<Bytes>, k: nat)
    requires |nodes| >= 1
    ensures LevelAt(sha, nodes, k + 1) == Level(sha, LevelAt(sha, nodes, k))
    decreases k
  {
    hide Level;
    if k > 0 {
      LevelAtNext(sha, Level(sha, nodes), k - 1);
    }
  }

  /** The proof is the tail of a leaf's own path, started from a node `depth` levels under the root, or a
      leaf's whole path with more hashes before it that climb to that leaf. */
  ghost predicate OnPath(sha: Sha, leaves: seq<Bytes>, x: Bytes, proof: Proof)
    requires |leaves| >= 1
  {
    var d, h, index := |proof.hashes|, Height(|leaves|), proof.txIndex;
    if d <= h then
      var nodes := LevelAt(sha, leaves, h - d);
      x == nodes[LeafAt(|nodes|, index)] && proof.hashes == SiblingPath(sha, nodes, index)
    else
      var above := Shift(index, d - h);
      && Climb(sha, x, proof.hashes[..d - h], index) == leaves[LeafAt(|leaves|, above)]
      && proof.hashes[d - h..] == SiblingPath(sha, leaves, above)
  }

  lemma {:induction false} OnPathClimbs(sha: Sha, leaves: seq<Bytes>, x: Bytes, proof: Proof)
    requires |leaves| >= 1 && OnPath(sha, leaves, x, proof)
    ensures Climb(sha, x, proof.hashes, proof.txIndex) == Root(sha, leaves)
  {
    hide Climb, Root, SiblingPath, LevelAt, Height;
    var d, h, index := |proof.hashes|, Height(|leaves|), proof.txIndex;
    if d <= h {
      LevelAtHeight(sha, leaves, h - d);
      SiblingPathClimbs(sha, LevelAt(sha, leaves, h - d), index);
    } else {
      ClimbSplit(sha, x, proof.hashes, index, d - h);
      SiblingPathClimbs(sha, leaves, Shift(index, d - h));
    }
  }

  /** Step `i` of the proof - not counting the steps below a leaf - and step `i` of the tree's own path hash
      different buffers to one value. */
  ghost predicate PathCollides(sha: Sha, leaves: seq<Bytes>, x: Bytes, proof: Proof, i: nat)
    requires |leaves| >= 1
  {
    var d, h, index, hs := |proof.hashes|, Height(|leaves|), proof.txIndex, proof.hashes;
    if d <= h then
      var nodes := LevelAt(sha, leaves, h - d);
      ClimbsCollide(sha, x, hs, nodes[LeafAt(|nodes|, index)], SiblingPath(sha, nodes, index), index, i)
    else
      var above := Shift(index, d - h);
      ClimbsCollide(sha, Climb(sha, x, hs[..d - h], index), hs[d - h..],
                    leaves[LeafAt(|leaves|, above)], SiblingPath(sha, leaves, above), above, i)
  }

  lemma {:induction false} ClimbsOnPath(sha: Sha, leaves: seq<Bytes>, x: Bytes, proof: Proof) returns (i: nat)
    requires |leaves| >= 1 && |x| == 32 && (forall k :: 0 <= k < |leaves| ==> |leaves[k]| == 32)
    requires ProofTyped(proof) && Climb(sha, x, proof.hashes, proof.txIndex) == Root(sha, leaves)
    ensures OnPath(sha, leaves, x, proof) || PathCollides(sha, leaves, x, proof, i)
  {
    hide Climb, Root, SiblingPath, LevelAt, Height, ClimbsCollide;
    var d, h, index, hs := |proof.hashes|, Height(|leaves|), proof.txIndex, proof.hashes;
    if d <= h {
      var nodes := LevelAt(sha, leaves, h - d);
      LevelAtHeight(sha, leaves, h - d);
      SiblingPathClimbs(sha, nodes, index);
      i := ClimbBinds(sha, x, hs, nodes[LeafAt(|nodes|, index)], SiblingPath(sha, nodes, index), index);
    } else {
      var above := Shift(index, d - h);
      ClimbSplit(sha, x, hs, index, d - h);
      SiblingPathClimbs(sha, leaves, above);
      ClimbWidth(sha, x, hs[..d - h], index);
      i := ClimbBinds(sha, Climb(sha, x, hs[..d - h], index), hs[d - h..], leaves[LeafAt(|leaves|, above)],
                      SiblingPath(sha, leaves, above), above);
    }
  }

  /** What is accepted against the root of a block, at any claimed depth and index: every proof of at least one
      hash that runs along a path of the tree, and only those - or the proof collides with the tree's own path. */
  lemma {:induction false} MerkleAccepts(sha: Sha, leaves: seq<Bytes>, x: Bytes, proof: Proof) returns (i: nat)
    requires |leaves| >= 1 && |x| == 32 && (forall k :: 0 <= k < |leaves| ==> |leaves[k]| == 32)
    requires ProofTyped(proof)
    ensures var shaped := 1 <= proof.treeDepth == |proof.hashes| && Pow2(proof.treeDepth) + proof.txIndex <= MAX_UINT;
      var accepted := VerifyMerkleProof(sha, x, Root(sha, leaves), proof) == Ok(true);
      && (shaped && OnPath(sha, leaves, x, proof) ==> accepted)
      && (accepted ==> shaped && (OnPath(sha, leaves, x, proof) || PathCollides(sha, leaves, x, proof, i)))
  {
    hide VerifyMerkleProof, OnPath, PathCollides, Climb, Root;
    i := 0;
    MerkleExact(sha, x, Root(sha, leaves), proof);
    if OnPath(sha, leaves, x, proof) {
      OnPathClimbs(sha, leaves, x, proof);
    } else if Climb(sha, x, proof.hashes, proof.txIndex) == Root(sha, leaves) {
      i := ClimbsOnPath(sha, leaves, x, proof);
    }
  }
}
