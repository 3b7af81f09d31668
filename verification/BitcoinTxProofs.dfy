/** Whole transactions: parse and print undo each other, the minimal form is the only shortest accepted
    one, and cutting the witnesses out of any accepted segwit buffer leaves a legacy buffer of the same
    transaction. */
module BitcoinTxProofs {
  import opened Clarity
  import opened BitcoinReader
  import opened BitcoinWire
  import opened BitcoinReaderProofs

  /** Inputs then outputs, as both parsers read them. */
  ghost function ReadBody(ctx: Ctx): Outcome<Parsed<(seq<TxIn>, seq<TxOut>)>> {
    var ins :- ReadTxins(ctx);
    var outs :- ReadTxouts(ins.ctx);
    Ok(Parsed((ins.value, outs.value), outs.ctx))
  }

  ghost predicate BodyFits(ins: seq<TxIn>, outs: seq<TxOut>) {
    && |ins| <= MAX_ITEMS && AllFit(TxinCodec(), ins)
    && |outs| <= MAX_ITEMS && AllFit(TxoutCodec(), outs)
  }

  lemma {:induction false} BodyPrint(b: Bytes, i: nat, ins: seq<TxIn>, outs: seq<TxOut>)
    requires BodyFits(ins, outs) && Has(b, i, EncodeBody(ins, outs))
    ensures ReadTxins(Ctx(b, i)) == Ok(Parsed(ins, Ctx(b, i + |EncodeCounted(EncodeTxin, ins)|)))
    ensures ReadBody(Ctx(b, i)) == Ok(Parsed((ins, outs), Ctx(b, i + |EncodeBody(ins, outs)|)))
  {
    hide ReadTxins, ReadTxouts, EncodeCounted, Counted;
    var head, tail := EncodeCounted(EncodeTxin, ins), EncodeCounted(EncodeTxout, outs);
    HasConcat(b, i, head, tail);
    TxinLawful();
    CountedPrint(TxinCodec(), b, i, ins);
    ReadTxinsIsCounted(Ctx(b, i));
    TxoutLawful();
    CountedPrint(TxoutCodec(), b, i + |head|, outs);
    ReadTxoutsIsCounted(Ctx(b, i + |head|));
  }

  lemma BodySound(b: Bytes, i: nat, p: Parsed<(seq<TxIn>, seq<TxOut>)>)
    requires ReadBody(Ctx(b, i)) == Ok(p)
    ensures p.ctx.txbuff == b && BodyFits(p.value.0, p.value.1)
    ensures i < p.ctx.index && Covers(b, i, p.ctx.index, EncodeBody(p.value.0, p.value.1))
    ensures MinimalBody(b, i) <==> p.ctx.index - i == |EncodeBody(p.value.0, p.value.1)|
  {
    hide ReadTxins, ReadTxouts, EncodeCounted, Counted, MinimalCounted;
    ReadTxinsIsCounted(Ctx(b, i));
    TxinLawful();
    CountedSound(TxinCodec(), b, i);
    var ins := ReadTxins(Ctx(b, i)).value;
    ReadTxoutsIsCounted(ins.ctx);
    TxoutLawful();
    CountedSound(TxoutCodec(), b, ins.ctx.index);
    var head, tail := EncodeCounted(EncodeTxin, p.value.0), EncodeCounted(EncodeTxout, p.value.1);
    CoversConcat(b, i, ins.ctx.index, p.ctx.index, head, tail);
    CountedNonempty(EncodeTxin, p.value.0);
  }

  lemma CountedNonempty<T>(encode: T -> Bytes, xs: seq<T>)
    ensures |EncodeCounted(encode, xs)| > 0
  {
  }

  lemma BodyMove(b: Bytes, i: nat, p: Parsed<(seq<TxIn>, seq<TxOut>)>, b': Bytes, i': nat)
    requires ReadBody(Ctx(b, i)) == Ok(p) && i <= p.ctx.index <= |b|
    requires Has(b', i', b[i..p.ctx.index])
    ensures ReadBody(Ctx(b', i')) == Ok(Parsed(p.value, Ctx(b', i' + p.ctx.index - i)))
  {
    hide ReadTxins, ReadTxouts, EncodeCounted, Counted, MinimalCounted, Has;
    ReadTxinsIsCounted(Ctx(b, i));
    TxinLawful();
    CountedSound(TxinCodec(), b, i);
    var ins := ReadTxins(Ctx(b, i)).value;
    var mid := ins.ctx.index;
    ReadTxoutsIsCounted(ins.ctx);
    TxoutLawful();
    CountedSound(TxoutCodec(), b, mid);
    HasWindow(b, i, p.ctx.index, b', i', i, mid);
    CountedMove(TxinCodec(), b, i, b', i');
    ReadTxinsIsCounted(Ctx(b', i'));
    HasWindow(b, i, p.ctx.index, b', i', mid, p.ctx.index);
    CountedMove(TxoutCodec(), b, mid, b', i' + mid - i);
    ReadTxoutsIsCounted(Ctx(b', i' + mid - i));
  }

  lemma WitnessesPrint(b: Bytes, i: nat, ws: seq<seq<Bytes>>)
    requires |ws| <= MAX_ITEMS && AllFit(WitnessCodec(), ws) && Has(b, i, EncodeAll(EncodeWitness, ws))
    ensures ReadWitnesses(Ctx(b, i), |ws|) == Ok(Parsed(ws, Ctx(b, i + |EncodeAll(EncodeWitness, ws)|)))
  {
    hide ReadWitness, EncodeAll, FoldWitnesses, Many;
    WitnessLawful();
    ManyPrint(WitnessCodec(), b, i, ws);
    FoldWitnessesIsMany(|ws|, Ctx(b, i), []);
    assert [] + ws == ws;
  }

  lemma WitnessesSound(b: Bytes, i: nat, n: nat, p: Parsed<seq<seq<Bytes>>>)
    requires i <= |b| && ReadWitnesses(Ctx(b, i), n) == Ok(p)
    ensures p.ctx.txbuff == b && |p.value| == n && AllFit(WitnessCodec(), p.value)
    ensures Covers(b, i, p.ctx.index, EncodeAll(EncodeWitness, p.value))
    ensures MinimalAll(MinimalWitnessAt, ReadWitness, b, i, n)
       <==> p.ctx.index - i == |EncodeAll(EncodeWitness, p.value)|
  {
    hide ReadWitness, EncodeAll, FoldWitnesses, Many, MinimalAll;
    FoldWitnessesIsMany(n, Ctx(b, i), []);
    var many := Many(ReadWitness, n, Ctx(b, i)).value;
    assert [] + many.value == many.value;
    WitnessLawful();
    ManySound(WitnessCodec(), b, i, n);
  }

  // ---------- the legacy form ----------

  lemma {:induction false} ParseTxPrint(t: Tx)
    requires TxFits(t)
    ensures ParseTx(PrintTx(t)) == Ok(t)
  {
    hide ReadTxins, ReadTxouts, EncodeBody, FromLE, ToLE;
    Pow256Values();
    var b := PrintTx(t);
    var body := EncodeBody(t.ins, t.outs);
    assert Has(b, 0, b);
    HasConcat(b, 0, ToLE(t.version, 4) + body, ToLE(t.locktime, 4));
    HasConcat(b, 0, ToLE(t.version, 4), body);
    UintPrint(b, 0, t.version, 4);
    BodyPrint(b, 4, t.ins, t.outs);
    UintPrint(b, 4 + |body|, t.locktime, 4);
  }

  /** Whatever parse-tx accepts fits the caps, and among all buffers it reads as `t` the printed one is
      the only shortest, which is the one with no over-long CompactSize. */
  lemma {:induction false} ParseTxSound(b: Bytes, t: Tx)
    requires ParseTx(b) == Ok(t)
    ensures TxFits(t) && |PrintTx(t)| <= |b|
    ensures PrintTx(t) == b <==> OnlyMinimalVarints(b)
    ensures PrintTx(t) == b <==> |PrintTx(t)| == |b|
  {
    hide ReadTxins, ReadTxouts, EncodeBody, FromLE, ToLE, MinimalBody;
    Pow256Values();
    var version := ReadUint(Ctx(b, 0), 4).value;
    UintSound(b, 0, 4, version);
    var body := ReadBody(version.ctx).value;
    BodySound(b, 4, body);
    var locktime := ReadUint(body.ctx, 4).value;
    UintSound(b, body.ctx.index, 4, locktime);
    CoversConcat(b, 0, 4, body.ctx.index, ToLE(t.version, 4), EncodeBody(t.ins, t.outs));
    CoversConcat(b, 0, body.ctx.index, |b|, ToLE(t.version, 4) + EncodeBody(t.ins, t.outs), ToLE(t.locktime, 4));
    assert b[0..|b|] == b;
  }

  lemma {:induction false} ParseTxExact(t: Tx)
    ensures ParseTx(PrintTx(t)) == Ok(t) <==> TxFits(t)
  {
    if TxFits(t) {
      ParseTxPrint(t);
    }
    if ParseTx(PrintTx(t)) == Ok(t) {
      ParseTxSound(PrintTx(t), t);
    }
  }

  // ---------- the segwit form ----------

  /** The four windows of a segwit buffer: version and flags, body, witnesses, locktime. */
  ghost predicate Windows(b: Bytes, t: Wtx, bodyEnd: nat, witnessEnd: nat) {
    && ReadUint(Ctx(b, 0), 4) == Ok(Parsed(t.version, Ctx(b, 4)))
    && ReadUint(Ctx(b, 4), 1) == Ok(Parsed(t.marker, Ctx(b, 5)))
    && ReadUint(Ctx(b, 5), 1) == Ok(Parsed(t.segwitVersion, Ctx(b, 6)))
    && ReadBody(Ctx(b, 6)) == Ok(Parsed((t.ins, t.outs), Ctx(b, bodyEnd)))
    && ReadWitnesses(Ctx(b, bodyEnd), |t.ins|) == Ok(Parsed(t.witnesses, Ctx(b, witnessEnd)))
    && ReadUint(Ctx(b, witnessEnd), 4) == Ok(Parsed(t.locktime, Ctx(b, witnessEnd + 4)))
  }

  lemma WindowsParse(b: Bytes, t: Wtx, bodyEnd: nat, witnessEnd: nat)
    requires Windows(b, t, bodyEnd, witnessEnd) && t.marker == 0 && t.segwitVersion == 1 && |b| == witnessEnd + 4
    ensures ParseWtx(b) == Ok(t)
  {
    hide ReadUint, ReadTxins, ReadTxouts, ReadWitnesses;
  }

  lemma ParseWindows(b: Bytes, t: Wtx) returns (bodyEnd: nat, witnessEnd: nat)
    requires ParseWtx(b) == Ok(t)
    ensures Windows(b, t, bodyEnd, witnessEnd)
    ensures 6 < bodyEnd <= witnessEnd && |b| == witnessEnd + 4
  {
    hide ReadTxins, ReadTxouts, ReadWitnesses, FromLE, EncodeAll, EncodeBody;
    var segwitVersion := ReadUint(Ctx(b, 5), 1).value;
    var body := ReadBody(segwitVersion.ctx).value;
    BodySound(b, 6, body);
    bodyEnd := body.ctx.index;
    var witnesses := ReadWitnesses(body.ctx, |t.ins|).value;
    WitnessesSound(b, bodyEnd, |t.ins|, witnesses);
    witnessEnd := witnesses.ctx.index;
  }

  lemma {:induction false} PrintLayout(t: Wtx, bodyEnd: nat, witnessEnd: nat)
    requires t.marker == 0 && t.segwitVersion == 1
    requires bodyEnd == 6 + |EncodeBody(t.ins, t.outs)|
    requires witnessEnd == bodyEnd + |EncodeAll(EncodeWitness, t.witnesses)|
    ensures var b := PrintWtx(t);
      && |b| == witnessEnd + 4
      && Has(b, 0, ToLE(t.version, 4))
      && Has(b, 4, [0, 1])
      && Has(b, 6, EncodeBody(t.ins, t.outs))
      && Has(b, bodyEnd, EncodeAll(EncodeWitness, t.witnesses))
      && Has(b, witnessEnd, ToLE(t.locktime, 4))
  {
    hide ToLE, EncodeBody, EncodeAll;
    var b := PrintWtx(t);
    var version, flags, body, witnesses := ToLE(t.version, 4), [0, 1], EncodeBody(t.ins, t.outs),
      EncodeAll(EncodeWitness, t.witnesses);
    assert Has(b, 0, b);
    HasConcat(b, 0, version + flags + body + witnesses, ToLE(t.locktime, 4));
    HasConcat(b, 0, version + flags + body, witnesses);
    HasConcat(b, 0, version + flags, body);
    HasConcat(b, 0, version, flags);
  }

  lemma {:induction false} PrintWindows(t: Wtx) returns (bodyEnd: nat, witnessEnd: nat)
    requires WtxFits(t)
    ensures Windows(PrintWtx(t), t, bodyEnd, witnessEnd)
    ensures bodyEnd == 6 + |EncodeBody(t.ins, t.outs)|
    ensures witnessEnd == bodyEnd + |EncodeAll(EncodeWitness, t.witnesses)| && |PrintWtx(t)| == witnessEnd + 4
  {
    hide ReadUint, ReadBody, ReadWitnesses, ToLE, EncodeBody, EncodeAll, PrintWtx, Has;
    Pow256Values();
    var b := PrintWtx(t);
    bodyEnd := 6 + |EncodeBody(t.ins, t.outs)|;
    witnessEnd := bodyEnd + |EncodeAll(EncodeWitness, t.witnesses)|;
    PrintLayout(t, bodyEnd, witnessEnd);
    UintPrint(b, 0, t.version, 4);
    FlagsPrint(b);
    BodyPrint(b, 6, t.ins, t.outs);
    WitnessesPrint(b, bodyEnd, t.witnesses);
    UintPrint(b, witnessEnd, t.locktime, 4);
  }

  lemma FlagsPrint(b: Bytes)
    requires Has(b, 4, [0, 1])
    ensures ReadUint(Ctx(b, 4), 1) == Ok(Parsed(0, Ctx(b, 5)))
    ensures ReadUint(Ctx(b, 5), 1) == Ok(Parsed(1, Ctx(b, 6)))
  {
    assert b[4] == b[4..6][0] && b[5] == b[4..6][1];
    assert b[4..5] == [b[4]] && b[5..6] == [b[5]];
    assert FromLE([b[4]]) == 0 && FromLE([b[5]]) == 1;
  }

  lemma {:induction false} ParseWtxPrint(t: Wtx)
    requires WtxFits(t)
    ensures ParseWtx(PrintWtx(t)) == Ok(t)
  {
    var bodyEnd, witnessEnd := PrintWindows(t);
    WindowsParse(PrintWtx(t), t, bodyEnd, witnessEnd);
  }

  lemma FlagsSound(b: Bytes)
    requires ReadUint(Ctx(b, 4), 1) == Ok(Parsed(0, Ctx(b, 5)))
    requires ReadUint(Ctx(b, 5), 1) == Ok(Parsed(1, Ctx(b, 6)))
    ensures Covers(b, 4, 6, [0, 1])
  {
    assert FromLE(b[4..5]) == b[4] as nat && FromLE(b[5..6]) == b[5] as nat;
  }

  /** As ParseTxSound, for parse-wtx. */
  lemma {:induction false} ParseWtxSound(b: Bytes, t: Wtx)
    requires ParseWtx(b) == Ok(t)
    ensures WtxFits(t) && |PrintWtx(t)| <= |b|
    ensures PrintWtx(t) == b <==> OnlyMinimalSegwitVarints(b)
    ensures PrintWtx(t) == b <==> |PrintWtx(t)| == |b|
  {
    hide ParseWtx, ReadTxins, ReadTxouts, ReadWitnesses, FromLE, ToLE, EncodeBody, EncodeAll, MinimalBody, MinimalAll;
    Pow256Values();
    var bodyEnd, witnessEnd := ParseWindows(b, t);
    FlagsOf(b, t);
    UintSound(b, 0, 4, Parsed(t.version, Ctx(b, 4)));
    FlagsSound(b);
    BodySound(b, 6, Parsed((t.ins, t.outs), Ctx(b, bodyEnd)));
    WitnessesSound(b, bodyEnd, |t.ins|, Parsed(t.witnesses, Ctx(b, witnessEnd)));
    UintSound(b, witnessEnd, 4, Parsed(t.locktime, Ctx(b, witnessEnd + 4)));
    var version, flags, body, witnesses, locktime := ToLE(t.version, 4), [0, 1], EncodeBody(t.ins, t.outs),
      EncodeAll(EncodeWitness, t.witnesses), ToLE(t.locktime, 4);
    CoversConcat(b, 0, 4, 6, version, flags);
    CoversConcat(b, 0, 6, bodyEnd, version + flags, body);
    CoversConcat(b, 0, bodyEnd, witnessEnd, version + flags + body, witnesses);
    CoversConcat(b, 0, witnessEnd, |b|, version + flags + body + witnesses, locktime);
    assert b[0..|b|] == b;
  }

  lemma FlagsOf(b: Bytes, t: Wtx)
    requires ParseWtx(b) == Ok(t)
    ensures t.marker == 0 && t.segwitVersion == 1
  {
    hide ReadUint, ReadTxins, ReadTxouts, ReadWitnesses;
  }

  lemma {:induction false} ParseWtxExact(t: Wtx)
    requires t.marker < 256 && t.segwitVersion < 256
    ensures ParseWtx(PrintWtx(t)) == Ok(t) <==> WtxFits(t)
  {
    hide ParseWtx, PrintWtx;
    if WtxFits(t) {
      ParseWtxPrint(t);
    }
    if ParseWtx(PrintWtx(t)) == Ok(t) {
      ParseWtxSound(PrintWtx(t), t);
    }
  }

  // ---------- cutting the witnesses out ----------

  lemma DropWindows(b: Bytes, t: Wtx, bodyEnd: nat, witnessEnd: nat)
    requires Windows(b, t, bodyEnd, witnessEnd) && 6 <= bodyEnd <= witnessEnd <= |b|
    ensures DropWitness(b) == Ok(b[..4] + b[6..bodyEnd] + b[witnessEnd..])
  {
    hide ReadUint, ReadTxins, ReadTxouts, ReadWitnesses;
    assert b[0..4] == b[..4] by { UintEnd(b); }
    assert b[witnessEnd..|b|] == b[witnessEnd..];
  }

  lemma UintEnd(b: Bytes)
    requires ReadUint(Ctx(b, 0), 4).Ok?
    ensures |b| >= 4 && b[0..4] == b[..4]
  {
  }

  /** For every buffer parse-wtx accepts, over-long CompactSizes included, the cut buffer is a legacy
      buffer that parse-tx reads as the same transaction without its witnesses. */
  lemma DropWitnessCommutes(b: Bytes, t: Wtx)
    requires ParseWtx(b) == Ok(t)
    ensures DropWitness(b).Ok? && ParseTx(DropWitness(b).value) == Ok(Strip(t))
  {
    hide ParseWtx, DropWitness, ReadTxins, ReadTxouts, ReadWitnesses, FromLE, EncodeBody;
    var bodyEnd, witnessEnd := ParseWindows(b, t);
    DropWindows(b, t, bodyEnd, witnessEnd);
    BodySound(b, 6, Parsed((t.ins, t.outs), Ctx(b, bodyEnd)));
    var cut := b[..4] + b[6..bodyEnd] + b[witnessEnd..];
    assert Has(cut, 0, cut);
    HasConcat(cut, 0, b[..4] + b[6..bodyEnd], b[witnessEnd..]);
    HasConcat(cut, 0, b[..4], b[6..bodyEnd]);
    assert b[..4] == b[0..4] && b[witnessEnd..] == b[witnessEnd..witnessEnd + 4];
    UintMove(b, 0, 4, Parsed(t.version, Ctx(b, 4)), cut, 0);
    BodyMove(b, 6, Parsed((t.ins, t.outs), Ctx(b, bodyEnd)), cut, 4);
    UintMove(b, witnessEnd, 4, Parsed(t.locktime, Ctx(b, witnessEnd + 4)), cut, 4 + bodyEnd - 6);
  }

  /** On the BIP 144 form the cut is the legacy form, byte for byte. */
  lemma {:induction false} DropWitnessOfPrint(t: Wtx)
    requires WtxFits(t)
    ensures DropWitness(PrintWtx(t)) == Ok(PrintTx(Strip(t)))
  {
    hide DropWitness, ReadTxins, ReadTxouts, ReadWitnesses, EncodeBody, EncodeAll, ToLE;
    var b := PrintWtx(t);
    var bodyEnd, witnessEnd := PrintWindows(t);
    DropWindows(b, t, bodyEnd, witnessEnd);
    assert b[..4] == ToLE(t.version, 4);
    assert b[6..bodyEnd] == EncodeBody(t.ins, t.outs);
    assert b[witnessEnd..] == ToLE(t.locktime, 4);
  }

  lemma SegwitIsRecognised(b: Bytes, t: Wtx)
    requires ParseWtx(b) == Ok(t)
    ensures IsSegwitTx(b) == Ok(true)
  {
    hide ReadUint, ReadTxins, ReadTxouts, ReadWitnesses;
  }

  /** A legacy buffer is taken for segwit exactly when it has no input and says so in one byte. */
  lemma LegacyIsRecognised(b: Bytes, t: Tx)
    requires ParseTx(b) == Ok(t)
    ensures IsSegwitTx(b) == Ok(|t.ins| == 0 && MinimalVarintAt(b, 4))
  {
    hide ReadTxouts, MinimalAll;
    var count := ReadVarint(Ctx(b, 4)).value;
    assert FromLE(b[4..5]) == b[4] as nat;
    ReadTxinsIsCounted(Ctx(b, 4));
    TxinLawful();
    VarintSound(b, 4, count);
    ManySound(TxinCodec(), b, count.ctx.index, count.value);
  }

  /** Over-long CompactSizes are accepted: this buffer spells the input count 0 in three bytes, and parses
      like the two bytes shorter print of the same transaction. */
  lemma OverlongIsAccepted()
    ensures ParseTx([0, 0, 0, 0, 253, 0, 0, 0, 0, 0, 0, 0]) == Ok(Tx(0, [], [], 0))
    ensures ParseTx(PrintTx(Tx(0, [], [], 0))) == Ok(Tx(0, [], [], 0))
    ensures |PrintTx(Tx(0, [], [], 0))| == 10
  {
    hide ParseTx, PrintTx;
    OverlongParses();
    ParseTxPrint(Tx(0, [], [], 0));
    TenBytes();
  }

  lemma {:induction false} OverlongParses()
    ensures ParseTx([0, 0, 0, 0, 253, 0, 0, 0, 0, 0, 0, 0]) == Ok(Tx(0, [], [], 0))
  {
    hide ReadUint, ReadTxins, ReadTxouts;
    var b: Bytes := [0, 0, 0, 0, 253, 0, 0, 0, 0, 0, 0, 0];
    ReadZeros(b, 0, 4);
    ReadZeros(b, 5, 2);
    ReadZeros(b, 8, 4);
    NoItems(Ctx(b, 4), Ctx(b, 7));
    NoItems(Ctx(b, 7), Ctx(b, 8));
  }

  lemma NoItems(ctx: Ctx, next: Ctx)
    requires ReadVarint(ctx) == Ok(Parsed(0, next))
    ensures ReadTxins(ctx) == Ok(Parsed([], next)) && ReadTxouts(ctx) == Ok(Parsed([], next))
  {
    hide ReadVarint;
  }

  lemma TenBytes()
    ensures |PrintTx(Tx(0, [], [], 0))| == 10
  {
  }

  lemma ReadZeros(b: Bytes, i: nat, width: nat)
    requires i + width <= |b| && forall k :: i <= k < i + width ==> b[k] == 0
    ensures ReadUint(Ctx(b, i), width) == Ok(Parsed(0, Ctx(b, i + width)))
  {
    Zeros(b[i..i + width]);
  }

  lemma {:induction false} Zeros(b: Bytes)
    requires forall i :: 0 <= i < |b| ==> b[i] == 0
    ensures FromLE(b) == 0
  {
    if b != [] {
      Zeros(b[1..]);
    }
  }
}
