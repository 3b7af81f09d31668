/** The wire forms the readers are meant to undo: BIP 144 ("Serialization") for segwit transactions,
    the legacy form without witnesses, and the caps under which the readers accept them. */
module BitcoinWire {
  import opened Clarity
  import opened BitcoinReader

  function EncodeVarint(v: nat): (r: Bytes)
    ensures |r| == VarintWidth(v)
  {
    if v <= 252 then [v as Byte]
    else if v < 0x1_0000 then [253] + ToLE(v, 2)
    else if v < 0x1_0000_0000 then [254] + ToLE(v, 4)
    else [255] + ToLE(v, 8)
  }

  function VarintWidth(v: nat): nat {
    if v <= 252 then 1 else if v < 0x1_0000 then 3 else if v < 0x1_0000_0000 then 5 else 9
  }

  function EncodeSlice(s: Bytes): Bytes {
    EncodeVarint(|s|) + s
  }

  function EncodeTxin(t: TxIn): Bytes {
    Reverse(t.hash) + ToLE(t.index, 4) + EncodeSlice(t.scriptSig) + ToLE(t.sequence, 4)
  }

  function EncodeTxout(t: TxOut): Bytes {
    ToLE(t.value, 8) + EncodeSlice(t.scriptPubKey)
  }

  function EncodeAll<T>(encode: T -> Bytes, xs: seq<T>): Bytes {
    if xs == [] then [] else encode(xs[0]) + EncodeAll(encode, xs[1..])
  }

  /** A list preceded by its length as a CompactSize. */
  function EncodeCounted<T>(encode: T -> Bytes, xs: seq<T>): Bytes {
    EncodeVarint(|xs|) + EncodeAll(encode, xs)
  }

  function EncodeWitness(items: seq<Bytes>): Bytes {
    EncodeCounted(EncodeSlice, items)
  }

  /** Inputs and outputs with their counts: the part both forms share. */
  function EncodeBody(ins: seq<TxIn>, outs: seq<TxOut>): Bytes {
    EncodeCounted(EncodeTxin, ins) + EncodeCounted(EncodeTxout, outs)
  }

  function PrintTx(t: Tx): Bytes {
    ToLE(t.version, 4) + EncodeBody(t.ins, t.outs) + ToLE(t.locktime, 4)
  }

  function PrintWtx(t: Wtx): Bytes
    requires t.marker < 256 && t.segwitVersion < 256
  {
    ToLE(t.version, 4) + [t.marker as Byte, t.segwitVersion as Byte] + EncodeBody(t.ins, t.outs)
    + EncodeAll(EncodeWitness, t.witnesses) + ToLE(t.locktime, 4)
  }

  /** The same transaction without its witnesses. */
  function Strip(t: Wtx): Tx {
    Tx(t.version, t.ins, t.outs, t.locktime)
  }

  predicate TxinFits(t: TxIn) {
    |t.hash| == 32 && t.index < 0x1_0000_0000 && t.sequence < 0x1_0000_0000 && |t.scriptSig| <= 256
  }

  predicate TxoutFits(t: TxOut) {
    t.value < 0x1_0000_0000_0000_0000 && |t.scriptPubKey| <= 128
  }

  predicate ElementFits(item: Bytes) {
    |item| <= 256
  }

  predicate WitnessFits(items: seq<Bytes>) {
    |items| <= MAX_ITEMS && forall i :: 0 <= i < |items| ==> ElementFits(items[i])
  }

  /** Within the caps and field widths the readers accept. */
  predicate TxFits(t: Tx) {
    && t.version < 0x1_0000_0000
    && t.locktime < 0x1_0000_0000
    && |t.ins| <= MAX_ITEMS
    && |t.outs| <= MAX_ITEMS
    && (forall i :: 0 <= i < |t.ins| ==> TxinFits(t.ins[i]))
    && (forall i :: 0 <= i < |t.outs| ==> TxoutFits(t.outs[i]))
  }

  predicate WtxFits(t: Wtx) {
    && t.marker == 0
    && t.segwitVersion == 1
    && TxFits(Strip(t))
    && |t.witnesses| == |t.ins|
    && (forall i :: 0 <= i < |t.witnesses| ==> WitnessFits(t.witnesses[i]))
  }

  /** The CompactSize at offset `i`, if one can be read there, uses the shortest of its four forms. */
  predicate MinimalVarintAt(b: Bytes, i: nat) {
    match ReadVarint(Ctx(b, i))
    case Ok(p) =>
      && (b[i] == 253 ==> p.value > 252)
      && (b[i] == 254 ==> p.value >= 0x1_0000)
      && (b[i] == 255 ==> p.value >= 0x1_0000_0000)
    case _ => true
  }

  /** The length prefix of the script of the input at `i`; likewise of the output at `i`. */
  predicate MinimalTxinAt(b: Bytes, i: nat) {
    MinimalVarintAt(b, i + 36)
  }

  predicate MinimalTxoutAt(b: Bytes, i: nat) {
    MinimalVarintAt(b, i + 8)
  }

  /** The `n` items that `read` finds one after the other from offset `i` are all minimal. */
  predicate MinimalAll<T>(minimalAt: (Bytes, nat) -> bool, read: Ctx -> Outcome<Parsed<T>>,
                          b: Bytes, i: nat, n: nat)
    decreases n
  {
    n > 0 ==>
      minimalAt(b, i)
      && match read(Ctx(b, i))
         case Ok(p) => MinimalAll(minimalAt, read, b, p.ctx.index, n - 1)
         case _ => true
  }

  predicate MinimalCounted<T>(minimalAt: (Bytes, nat) -> bool, read: Ctx -> Outcome<Parsed<T>>, b: Bytes, i: nat) {
    MinimalVarintAt(b, i)
    && match ReadVarint(Ctx(b, i))
       case Ok(count) => MinimalAll(minimalAt, read, b, count.ctx.index, count.value)
       case _ => true
  }

  predicate MinimalWitnessAt(b: Bytes, i: nat) {
    MinimalCounted(MinimalVarintAt, ReadElement, b, i)
  }

  predicate MinimalBody(b: Bytes, i: nat) {
    MinimalCounted(MinimalTxinAt, ReadTxin, b, i)
    && match ReadTxins(Ctx(b, i))
       case Ok(ins) => MinimalCounted(MinimalTxoutAt, ReadTxout, b, ins.ctx.index)
       case _ => true
  }

  /** Every CompactSize that parse-tx reads from `b` is minimal. */
  predicate OnlyMinimalVarints(b: Bytes) {
    MinimalBody(b, 4)
  }

  /** Every CompactSize that parse-wtx reads from `b` is minimal. */
  predicate OnlyMinimalSegwitVarints(b: Bytes) {
    MinimalBody(b, 6)
    && match ReadTxins(Ctx(b, 6))
       case Ok(ins) => (match ReadTxouts(ins.ctx)
                        case Ok(outs) =>
                          MinimalAll(MinimalWitnessAt, ReadWitness, b, outs.ctx.index, |ins.value|)
                        case _ => true)
       case _ => true
  }
}
