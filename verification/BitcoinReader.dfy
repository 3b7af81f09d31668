/** The cursor-threading readers of clarity-bitcoin: integers, CompactSize, slices, inputs, outputs,
    witnesses, and the segwit, legacy and header parsers built from them. Nothing here depends on the
    declared buffer cap, so the model covers every revision that differs only in that cap. */
module BitcoinReader {
  import opened Clarity

  const ERR_OUT_OF_BOUNDS: nat := 1001
  const ERR_TOO_MANY_TXINS: nat := 1002
  const ERR_TOO_MANY_TXOUTS: nat := 1003
  const ERR_VARSLICE_TOO_LONG: nat := 1004
  const ERR_LEFTOVER_DATA: nat := 1010
  const ERR_NOT_SEGWIT_TRANSACTION: nat := 1011

  /** The cap on inputs, outputs and witness items: 62 from v1-05 on, 32 before. Everything holds for any value
      of this type. */
  type ItemCap = n: nat | 32 <= n <= 252 witness 62

  const MAX_ITEMS: ItemCap
  const MAX_SCRIPT_SIG: nat := 256
  const MAX_SCRIPT_PUB_KEY: nat := 128
  const MAX_WITNESS_ITEM: nat := 256

  datatype Ctx = Ctx(txbuff: Bytes, index: nat)
  datatype Parsed<+T> = Parsed(value: T, ctx: Ctx)

  datatype TxIn = TxIn(hash: Bytes, index: nat, scriptSig: Bytes, sequence: nat)
  datatype TxOut = TxOut(value: nat, scriptPubKey: Bytes)
  datatype Tx = Tx(version: nat, ins: seq<TxIn>, outs: seq<TxOut>, locktime: nat)
  datatype Wtx = Wtx(version: nat, marker: nat, segwitVersion: nat, ins: seq<TxIn>, outs: seq<TxOut>,
                     witnesses: seq<seq<Bytes>>, locktime: nat)
  datatype Header = Header(version: nat, parent: Bytes, merkleRoot: Bytes, timestamp: nat, nbits: nat, nonce: nat)

  /** read-uint8, read-uint16, read-uint32 and read-uint64, by width in bytes. */
  function ReadUint(ctx: Ctx, width: nat): Outcome<Parsed<nat>> {
    match Slice(ctx.txbuff, ctx.index, ctx.index + width)
    case None => Err(ERR_OUT_OF_BOUNDS)
    case Some(s) => Ok(Parsed(FromLE(s), Ctx(ctx.txbuff, ctx.index + width)))
  }

  function ReadVarint(ctx: Ctx): Outcome<Parsed<nat>> {
    if ctx.index >= |ctx.txbuff| then
      Err(ERR_OUT_OF_BOUNDS)
    else
      var tag := ctx.txbuff[ctx.index];
      var next := Ctx(ctx.txbuff, ctx.index + 1);
      if tag <= 252 then Ok(Parsed(tag as nat, next))
      else if tag == 253 then ReadUint(next, 2)
      else if tag == 254 then ReadUint(next, 4)
      else ReadUint(next, 8)
  }

  function ReadVarslice(ctx: Ctx): Outcome<Parsed<Bytes>> {
    var length :- ReadVarint(ctx);
    var start := length.ctx.index;
    match Slice(ctx.txbuff, start, start + length.value)
    case None => Err(ERR_OUT_OF_BOUNDS)
    case Some(s) => Ok(Parsed(s, Ctx(ctx.txbuff, start + length.value)))
  }

  /** One step of the in-place swap that `reverse-buff32` folds over the positions 31 down to 16. */
  function InnerReverse(target: nat, b: Hash32): Hash32
    requires target < 32
  {
    b[target := b[31 - target]][31 - target := b[target]]
  }

  function FoldReverse(target: nat, b: Hash32): Hash32
    requires 15 <= target < 32
  {
    if target == 15 then b else FoldReverse(target - 1, InnerReverse(target, b))
  }

  function ReverseBuff32(b: Hash32): Hash32 {
    FoldReverse(31, b)
  }

  function ReadHashslice(ctx: Ctx): Outcome<Parsed<Bytes>> {
    match Slice(ctx.txbuff, ctx.index, ctx.index + 32)
    case None => Err(ERR_OUT_OF_BOUNDS)
    case Some(s) => Ok(Parsed(ReverseBuff32(s), Ctx(ctx.txbuff, ctx.index + 32)))
  }

  datatype TxinState = TxinState(ctx: Ctx, remaining: nat, txins: seq<TxIn>)

  function ReadTxin(ctx: Ctx): Outcome<Parsed<TxIn>> {
    var hash :- ReadHashslice(ctx);
    var index :- ReadUint(hash.ctx, 4);
    var script :- ReadVarslice(index.ctx);
    var sequence :- ReadUint(script.ctx, 4);
    if |script.value| > MAX_SCRIPT_SIG then Err(ERR_VARSLICE_TOO_LONG)
    else Ok(Parsed(TxIn(hash.value, index.value, script.value, sequence.value), sequence.ctx))
  }

  function ReadNextTxin(res: Outcome<TxinState>): Outcome<TxinState> {
    var state :- res;
    if state.remaining > 0 then
      var txin :- ReadTxin(state.ctx);
      if |state.txins| + 1 > MAX_ITEMS then Err(ERR_TOO_MANY_TXINS)
      else Ok(TxinState(txin.ctx, state.remaining - 1, state.txins + [txin.value]))
    else
      Ok(state)
  }

  function FoldTxins(n: nat, res: Outcome<TxinState>): Outcome<TxinState> {
    if n == 0 then res else FoldTxins(n - 1, ReadNextTxin(res))
  }

  function ReadTxins(ctx: Ctx): Outcome<Parsed<seq<TxIn>>> {
    var count :- ReadVarint(ctx);
    if count.value > MAX_ITEMS then Err(ERR_TOO_MANY_TXINS)
    else
      var state :- FoldTxins(count.value, Ok(TxinState(count.ctx, count.value, [])));
      Ok(Parsed(state.txins, state.ctx))
  }

  function ReadTxout(ctx: Ctx): Outcome<Parsed<TxOut>> {
    var value :- ReadUint(ctx, 8);
    var script :- ReadVarslice(value.ctx);
    if |script.value| > MAX_SCRIPT_PUB_KEY then Err(ERR_VARSLICE_TOO_LONG)
    else Ok(Parsed(TxOut(value.value, script.value), script.ctx))
  }

  function ReadNextTxout(res: Outcome<Parsed<seq<TxOut>>>): Outcome<Parsed<seq<TxOut>>> {
    var state :- res;
    var txout :- ReadTxout(state.ctx);
    if |state.value| + 1 > MAX_ITEMS then Err(ERR_TOO_MANY_TXOUTS)
    else Ok(Parsed(state.value + [txout.value], txout.ctx))
  }

  function FoldTxouts(n: nat, res: Outcome<Parsed<seq<TxOut>>>): Outcome<Parsed<seq<TxOut>>> {
    if n == 0 then res else FoldTxouts(n - 1, ReadNextTxout(res))
  }

  function ReadTxouts(ctx: Ctx): Outcome<Parsed<seq<TxOut>>> {
    var count :- ReadVarint(ctx);
    if count.value > MAX_ITEMS then Err(ERR_TOO_MANY_TXOUTS)
    else FoldTxouts(count.value, Ok(Parsed([], count.ctx)))
  }

  function ReadElement(ctx: Ctx): Outcome<Parsed<Bytes>> {
    var item :- ReadVarslice(ctx);
    if |item.value| > MAX_WITNESS_ITEM then Err(ERR_VARSLICE_TOO_LONG) else Ok(item)
  }

  function ReadNextElement(res: Outcome<Parsed<seq<Bytes>>>): Outcome<Parsed<seq<Bytes>>> {
    var state :- res;
    var item :- ReadElement(state.ctx);
    if |state.value| + 1 > MAX_ITEMS then Err(ERR_TOO_MANY_TXOUTS)
    else Ok(Parsed(state.value + [item.value], item.ctx))
  }

  function FoldElements(n: nat, res: Outcome<Parsed<seq<Bytes>>>): Outcome<Parsed<seq<Bytes>>> {
    if n == 0 then res else FoldElements(n - 1, ReadNextElement(res))
  }

  /** The witness of one input. A count above the cap makes `slice?` fail under `unwrap-panic`. */
  function ReadWitness(ctx: Ctx): Outcome<Parsed<seq<Bytes>>> {
    var count :- ReadVarint(ctx);
    if count.value == 0 then Ok(Parsed([], count.ctx))
    else if count.value > MAX_ITEMS then Abort
    else FoldElements(count.value, Ok(Parsed([], count.ctx)))
  }

  /** An error left by an earlier input is replaced by `(err u1)`; the list is capped under `unwrap-panic`. */
  function ReadNextWitness(res: Outcome<Parsed<seq<seq<Bytes>>>>): Outcome<Parsed<seq<seq<Bytes>>>> {
    match res
    case Abort => Abort
    case Err(_) => Err(1)
    case Ok(state) =>
      var stack :- ReadWitness(state.ctx);
      if |state.value| + 1 > MAX_ITEMS then Abort
      else Ok(Parsed(state.value + [stack.value], stack.ctx))
  }

  function FoldWitnesses(n: nat, res: Outcome<Parsed<seq<seq<Bytes>>>>): Outcome<Parsed<seq<seq<Bytes>>>> {
    if n == 0 then res else FoldWitnesses(n - 1, ReadNextWitness(res))
  }

  function ReadWitnesses(ctx: Ctx, numTxins: nat): Outcome<Parsed<seq<seq<Bytes>>>> {
    if numTxins > MAX_ITEMS then Abort else FoldWitnesses(numTxins, Ok(Parsed([], ctx)))
  }

  function IsSegwitTx(tx: Bytes): Outcome<bool> {
    var version :- ReadUint(Ctx(tx, 0), 4);
    var marker :- ReadUint(version.ctx, 1);
    Ok(marker.value == 0)
  }

  function ParseWtx(tx: Bytes): Outcome<Wtx> {
    var version :- ReadUint(Ctx(tx, 0), 4);
    var marker :- ReadUint(version.ctx, 1);
    var segwitVersion :- ReadUint(marker.ctx, 1);
    var txins :- ReadTxins(segwitVersion.ctx);
    var txouts :- ReadTxouts(txins.ctx);
    var witnesses :- ReadWitnesses(txouts.ctx, |txins.value|);
    var locktime :- ReadUint(witnesses.ctx, 4);
    if marker.value != 0 || segwitVersion.value != 1 then Err(ERR_NOT_SEGWIT_TRANSACTION)
    else if |tx| != locktime.ctx.index then Err(ERR_LEFTOVER_DATA)
    else
      Ok(Wtx(version.value, marker.value, segwitVersion.value, txins.value, txouts.value,
             witnesses.value, locktime.value))
  }

  function ParseTx(tx: Bytes): Outcome<Tx> {
    var version :- ReadUint(Ctx(tx, 0), 4);
    var txins :- ReadTxins(version.ctx);
    var txouts :- ReadTxouts(txins.ctx);
    var locktime :- ReadUint(txouts.ctx, 4);
    if |tx| != locktime.ctx.index then Err(ERR_LEFTOVER_DATA)
    else Ok(Tx(version.value, txins.value, txouts.value, locktime.value))
  }

  function ParseBlockHeader(header: Bytes): Outcome<Header> {
    var version :- ReadUint(Ctx(header, 0), 4);
    var parent :- ReadHashslice(version.ctx);
    var merkleRoot :- ReadHashslice(parent.ctx);
    var timestamp :- ReadUint(merkleRoot.ctx, 4);
    var nbits :- ReadUint(timestamp.ctx, 4);
    var nonce :- ReadUint(nbits.ctx, 4);
    Ok(Header(version.value, parent.value, merkleRoot.value, timestamp.value, nbits.value, nonce.value))
  }

  /** The bytes that get-reversed-segwit-txid hashes: the buffer with marker, flag and witnesses cut out.
      Every reader runs under `unwrap-panic`; neither the flag values nor leftover bytes are checked. */
  function DropWitness(tx: Bytes): Outcome<Bytes> {
    var version :- ReadUint(Ctx(tx, 0), 4).UnwrapPanic();
    var marker :- ReadUint(version.ctx, 1).UnwrapPanic();
    var segwitVersion :- ReadUint(marker.ctx, 1).UnwrapPanic();
    var txins :- ReadTxins(segwitVersion.ctx).UnwrapPanic();
    var txouts :- ReadTxouts(txins.ctx).UnwrapPanic();
    var witnesses :- ReadWitnesses(txouts.ctx, |txins.value|).UnwrapPanic();
    var locktime :- ReadUint(witnesses.ctx, 4).UnwrapPanic();
    match (Slice(tx, 0, version.ctx.index),
           Slice(tx, segwitVersion.ctx.index, txouts.ctx.index),
           Slice(tx, witnesses.ctx.index, |tx|))
    case (Some(head), Some(body), Some(tail)) => Ok(head + body + tail)
    case _ => Abort
  }
}
