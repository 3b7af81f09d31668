/** Was this transaction mined: the header check, the txid of either wire form, the Merkle proof, and the
    oracle's dispatch between the two forms. The header hash by height and SHA-256 are parameters. */
module Mined {
  import opened Clarity
  import opened BitcoinReader
  import opened BitcoinWire
  import opened BitcoinReaderProofs
  import opened BitcoinTxProofs
  import opened Merkle

  const ERR_BITCOIN_TX_NOT_MINED: nat := 1009

  datatype Chain = Chain(sha: Sha, headerHashAt: nat -> Option<Bytes>)
  datatype Block = Block(header: Bytes, height: nat)

  function VerifyBlockHeader(chain: Chain, block: Block): bool {
    match chain.headerHashAt(block.height)
    case Some(hash) => hash == ReverseBuff32(Sha2(chain.sha, block.header))
    case None => false
  }

  function ReversedSegwitTxid(sha: Sha, tx: Bytes): Outcome<Hash32> {
    var cut :- DropWitness(tx);
    Ok(Sha2(sha, cut))
  }

  function WasMined(chain: Chain, block: Block, txid: Outcome<Hash32>, proof: Proof): Outcome<bool> {
    var headerValid := VerifyBlockHeader(chain, block);
    var reversedTxid :- txid;
    var header :- ParseBlockHeader(block.header);
    if |header.merkleRoot| != 32 then Abort
    else
      var merkleValid := VerifyMerkleProof(chain.sha, reversedTxid, ReverseBuff32(header.merkleRoot), proof);
      if merkleValid.Abort? then Abort else if headerValid then merkleValid else Ok(false)
  }

  function WasTxMined(chain: Chain, block: Block, tx: Bytes, proof: Proof): Outcome<bool> {
    WasMined(chain, block, Ok(Sha2(chain.sha, tx)), proof)
  }

  function WasSegwitTxMined(chain: Chain, block: Block, tx: Bytes, proof: Proof): Outcome<bool> {
    WasMined(chain, block, ReversedSegwitTxid(chain.sha, tx), proof)
  }

  function VerifyMined(chain: Chain, mainnet: bool, tx: Bytes, block: Block, proof: Proof): Outcome<bool> {
    if mainnet then
      var segwit :- IsSegwitTx(tx);
      var response := if segwit then WasSegwitTxMined(chain, block, tx, proof) else WasTxMined(chain, block, tx, proof);
      match response
      case Abort => Abort
      case Err(_) => Err(ERR_BITCOIN_TX_NOT_MINED)
      case Ok(mined) => if mined then Ok(true) else Err(ERR_BITCOIN_TX_NOT_MINED)
    else
      Ok(true)
  }

  /** The header parser accepts from 80 bytes on, and reversing its merkle root again gives the raw bytes
      36 to 68 of the header. */
  lemma HeaderRoot(header: Bytes)
    ensures ParseBlockHeader(header).Ok? <==> |header| >= 80
    ensures |header| >= 80 ==>
      var root := ParseBlockHeader(header).value.merkleRoot;
      |root| == 32 && ReverseBuff32(root) == header[36..68]
  {
    hide FoldReverse, FromLE;
    if |header| >= 80 {
      ReverseBuff32IsReverse(header[36..68]);
      ReverseInvolutive(header[36..68]);
      ReverseBuff32IsReverse(ParseBlockHeader(header).value.merkleRoot);
    }
  }

  /** The bytes the dispatch hashes: the cut buffer for segwit, the buffer itself otherwise. */
  function HashedBytes(tx: Bytes): Outcome<Bytes> {
    var segwit :- IsSegwitTx(tx);
    if segwit then DropWitness(tx) else Ok(tx)
  }

  /** The txid the dispatch settles on. */
  function DispatchTxid(sha: Sha, tx: Bytes): Outcome<Hash32> {
    var hashed :- HashedBytes(tx);
    Ok(Sha2(sha, hashed))
  }

  /** What a mainnet "mined" verdict means, both ways: a readable txid, a full header whose hash is the
      burn chain's at that height, and a proof of depth at least 1 that climbs to the header's root. */
  lemma VerifyMinedExact(chain: Chain, tx: Bytes, block: Block, proof: Proof)
    requires ProofTyped(proof)
    ensures VerifyMined(chain, true, tx, block, proof) == Ok(true) <==>
      && DispatchTxid(chain.sha, tx).Ok?
      && |block.header| >= 80
      && chain.headerHashAt(block.height) == Some(Reverse(Sha2(chain.sha, block.header)))
      && Pow2(proof.treeDepth) + proof.txIndex <= MAX_UINT
      && 1 <= proof.treeDepth == |proof.hashes|
      && Climb(chain.sha, DispatchTxid(chain.sha, tx).value, proof.hashes, proof.txIndex) == block.header[36..68]
  {
    hide DropWitness, ParseBlockHeader, VerifyMerkleProof, Climb, FoldReverse, Sha2, ReadUint;
    HeaderRoot(block.header);
    ReverseBuff32IsReverse(Sha2(chain.sha, block.header));
    if DispatchTxid(chain.sha, tx).Ok? && |block.header| >= 80 {
      MerkleExact(chain.sha, DispatchTxid(chain.sha, tx).value, block.header[36..68], proof);
    }
  }

  /** The answer, in every case. Elsewhere than on mainnet everything counts as mined. On mainnet a buffer too short to
      be told apart is error 1001, an unreadable segwit buffer or an index beyond 128 bits panics, and whatever is not
      included is error 1009. */
  lemma {:induction false} VerifyMinedAnswers(chain: Chain, tx: Bytes, block: Block, proof: Proof)
    requires ProofTyped(proof)
    ensures VerifyMined(chain, false, tx, block, proof) == Ok(true)
    ensures |tx| < 5 ==> VerifyMined(chain, true, tx, block, proof) == Err(1001)
    ensures |tx| >= 5 ==>
      VerifyMined(chain, true, tx, block, proof) ==
        if tx[4] == 0 && !DropWitness(tx).Ok? then Abort
        else if |block.header| < 80 then Err(1009)
        else if proof.treeDepth <= |proof.hashes| && Pow2(proof.treeDepth) + proof.txIndex > MAX_UINT then Abort
        else if && chain.headerHashAt(block.height) == Some(Reverse(Sha2(chain.sha, block.header)))
                && 1 <= proof.treeDepth == |proof.hashes|
                && Climb(chain.sha, Sha2(chain.sha, if tx[4] == 0 then DropWitness(tx).value else tx), proof.hashes,
                         proof.txIndex) == block.header[36..68]
        then Ok(true) else Err(1009)
  {
    hide DropWitness, ParseBlockHeader, VerifyMerkleProof, Climb, FoldReverse, Sha2, Pow2;
    HeaderRoot(block.header);
    HeaderTooShort(block.header);
    ReverseBuff32IsReverse(Sha2(chain.sha, block.header));
    SegwitByte(tx);
    if |tx| >= 5 && (tx[4] == 0 ==> DropWitness(tx).Ok?) && |block.header| >= 80 {
      MerkleExact(chain.sha, DispatchTxid(chain.sha, tx).value, block.header[36..68], proof);
    }
    if |tx| >= 5 && tx[4] == 0 {
      DropWitnessNeverErr(tx);
    }
  }

  /** The dispatch goes by the fifth byte. */
  lemma SegwitByte(tx: Bytes)
    ensures |tx| < 5 ==> IsSegwitTx(tx) == Err(1001)
    ensures |tx| >= 5 ==> IsSegwitTx(tx) == Ok(tx[4] == 0)
  {
    if |tx| >= 5 {
      assert tx[4..5] == [tx[4]];
      assert FromLE([tx[4]]) == tx[4] as nat + 256 * FromLE([tx[4]][1..]);
    }
  }

  lemma HeaderTooShort(header: Bytes)
    ensures |header| < 80 ==> ParseBlockHeader(header) == Err(1001)
  {
    hide FoldReverse, FromLE;
  }

  /** Every reader of the cut runs under unwrap-panic. */
  lemma DropWitnessNeverErr(tx: Bytes)
    ensures !DropWitness(tx).Err?
  {
    hide ReadUint, ReadTxins, ReadTxouts, ReadWitnesses;
  }

  lemma SameTxidSameVerdict(chain: Chain, tx: Bytes, tx': Bytes, block: Block, proof: Proof)
    requires DispatchTxid(chain.sha, tx).Ok? && DispatchTxid(chain.sha, tx) == DispatchTxid(chain.sha, tx')
    ensures VerifyMined(chain, true, tx, block, proof) == VerifyMined(chain, true, tx', block, proof)
  {
    hide DropWitness, ReadUint, WasMined;
  }

  /** Witness stripping preserves identity: every accepted segwit buffer with an input gets the same txid,
      and the same verdict against every block and proof, as its own legacy form. */
  lemma {:induction false} BothFormsSameVerdict(chain: Chain, tx: Bytes, t: Wtx, block: Block, proof: Proof)
    requires ParseWtx(tx) == Ok(t) && |t.ins| > 0
    ensures DropWitness(tx).Ok?
    ensures var legacy := DropWitness(tx).value;
      && DispatchTxid(chain.sha, tx) == DispatchTxid(chain.sha, legacy) == Ok(Sha2(chain.sha, legacy))
      && VerifyMined(chain, true, tx, block, proof) == VerifyMined(chain, true, legacy, block, proof)
  {
    hide ParseWtx, ParseTx, DropWitness, VerifyMined, IsSegwitTx, MinimalVarintAt;
    DropWitnessCommutes(tx, t);
    SegwitIsRecognised(tx, t);
    LegacyIsRecognised(DropWitness(tx).value, Strip(t));
    SameTxidSameVerdict(chain, tx, DropWitness(tx).value, block, proof);
  }

  /** The same for the BIP 144 and legacy prints of one transaction. */
  lemma {:induction false} PrintsSameTxid(chain: Chain, t: Wtx, block: Block, proof: Proof)
    requires WtxFits(t) && |t.ins| > 0
    ensures ReversedSegwitTxid(chain.sha, PrintWtx(t)) == Ok(Sha2(chain.sha, PrintTx(Strip(t))))
    ensures VerifyMined(chain, true, PrintWtx(t), block, proof)
         == VerifyMined(chain, true, PrintTx(Strip(t)), block, proof)
  {
    hide ParseWtx, DropWitness, PrintWtx, PrintTx, VerifyMined;
    ParseWtxPrint(t);
    DropWitnessOfPrint(t);
    BothFormsSameVerdict(chain, PrintWtx(t), t, block, proof);
  }
}
