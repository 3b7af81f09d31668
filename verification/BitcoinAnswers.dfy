/** What the readers and parsers answer to a buffer they do not accept: which error, or a panic, and why. */
module BitcoinAnswers {
  import opened Clarity
  import opened BitcoinReader
  import opened BitcoinReaderProofs
  import opened BitcoinTxProofs

  lemma UintAnswers(b: Bytes, i: nat, width: nat)
    ensures ReadUint(Ctx(b, i), width).Ok? <==> i + width <= |b|
    ensures i + width > |b| ==> ReadUint(Ctx(b, i), width) == Err(1001)
    ensures i + width <= |b| ==> ReadUint(Ctx(b, i), width).value.ctx == Ctx(b, i + width)
  {
    hide FromLE;
  }

  /** How many bytes a CompactSize takes, by its first byte. */
  function VarintSpan(first: Byte): nat {
    if first <= 252 then 1 else if first == 253 then 3 else if first == 254 then 5 else 9
  }

  lemma VarintAnswers(b: Bytes, i: nat)
    ensures ReadVarint(Ctx(b, i)).Ok? <==> i < |b| && i + VarintSpan(b[i]) <= |b|
    ensures !ReadVarint(Ctx(b, i)).Ok? ==> ReadVarint(Ctx(b, i)) == Err(1001)
    ensures ReadVarint(Ctx(b, i)).Ok? ==> ReadVarint(Ctx(b, i)).value.ctx == Ctx(b, i + VarintSpan(b[i]))
  {
    hide FromLE;
  }

  /** The offset after the length-prefixed bytes at `i`, when they are all there. */
  function SliceEnd(b: Bytes, i: nat): Option<nat> {
    match ReadVarint(Ctx(b, i))
    case Ok(length) => if length.ctx.index + length.value <= |b| then Some(length.ctx.index + length.value) else None
    case _ => None
  }

  lemma SliceAnswers(b: Bytes, i: nat)
    ensures ReadVarslice(Ctx(b, i)).Ok? <==> SliceEnd(b, i).Some?
    ensures !ReadVarslice(Ctx(b, i)).Ok? ==> ReadVarslice(Ctx(b, i)) == Err(1001)
    ensures ReadVarslice(Ctx(b, i)).Ok? ==>
      var p, length := ReadVarslice(Ctx(b, i)).value, ReadVarint(Ctx(b, i)).value;
      p.ctx == Ctx(b, SliceEnd(b, i).value) && |p.value| == length.value
  {
    hide ReadVarint;
    VarintAnswers(b, i);
  }

  /** An input: out of bounds unless all four fields are there, and only then is the script's length looked at. */
  lemma TxinAnswers(b: Bytes, i: nat)
    ensures var end := SliceEnd(b, i + 36);
      ReadTxin(Ctx(b, i)).Ok? || ReadTxin(Ctx(b, i)) ==
        if i + 36 <= |b| && end.Some? && end.value + 4 <= |b| then Err(1004) else Err(1001)
    ensures ReadTxin(Ctx(b, i)).Ok? <==>
      && i + 36 <= |b| && SliceEnd(b, i + 36).Some? && SliceEnd(b, i + 36).value + 4 <= |b|
      && ReadVarint(Ctx(b, i + 36)).value.value <= 256
  {
    hide ReadUint, ReadVarslice, ReadVarint, FoldReverse;
    UintAnswers(b, i + 32, 4);
    SliceAnswers(b, i + 36);
    if SliceEnd(b, i + 36).Some? {
      UintAnswers(b, SliceEnd(b, i + 36).value, 4);
    }
  }

  lemma TxoutAnswers(b: Bytes, i: nat)
    ensures ReadTxout(Ctx(b, i)).Ok? || ReadTxout(Ctx(b, i)) ==
      if i + 8 <= |b| && SliceEnd(b, i + 8).Some? then Err(1004) else Err(1001)
    ensures ReadTxout(Ctx(b, i)).Ok? <==>
      i + 8 <= |b| && SliceEnd(b, i + 8).Some? && ReadVarint(Ctx(b, i + 8)).value.value <= 128
  {
    hide ReadUint, ReadVarslice, ReadVarint;
    UintAnswers(b, i, 8);
    SliceAnswers(b, i + 8);
  }

  lemma ElementAnswers(b: Bytes, i: nat)
    ensures ReadElement(Ctx(b, i)).Ok? || ReadElement(Ctx(b, i)) ==
      if SliceEnd(b, i).Some? then Err(1004) else Err(1001)
    ensures ReadElement(Ctx(b, i)).Ok? <==> SliceEnd(b, i).Some? && ReadVarint(Ctx(b, i)).value.value <= 256
  {
    hide ReadVarslice, ReadVarint;
    SliceAnswers(b, i);
  }

  /** Reading `n` items one after the other fails like the first of them that fails. */
  lemma {:induction false} ManyAnswers<T>(read: Ctx -> Outcome<Parsed<T>>, n: nat, ctx: Ctx) returns (k: nat)
    requires !Many(read, n, ctx).Ok?
    ensures k < n && Many(read, k, ctx).Ok?
    ensures match read(Many(read, k, ctx).value.ctx)
      case Ok(_) => false
      case Err(e) => Many(read, n, ctx) == Err(e)
      case Abort => Many(read, n, ctx) == Abort
    decreases n
  {
    var x := read(ctx);
    if x.Ok? {
      var m := ManyAnswers(read, n - 1, x.value.ctx);
      k := m + 1;
    } else {
      k := 0;
    }
  }

  /** Too many inputs is 1002, too many outputs 1003; a witness with too many items panics. */
  lemma {:induction false} CountAnswers(b: Bytes, i: nat)
    ensures !ReadVarint(Ctx(b, i)).Ok? ==>
      && ReadTxins(Ctx(b, i)) == Err(1001) && ReadTxouts(Ctx(b, i)) == Err(1001)
      && ReadWitness(Ctx(b, i)) == Err(1001)
    ensures ReadVarint(Ctx(b, i)).Ok? ==>
      var n, ctx := ReadVarint(Ctx(b, i)).value.value, ReadVarint(Ctx(b, i)).value.ctx;
      && ReadTxins(Ctx(b, i)) == (if n > MAX_ITEMS then Err(1002) else Many(ReadTxin, n, ctx))
      && ReadTxouts(Ctx(b, i)) == (if n > MAX_ITEMS then Err(1003) else Many(ReadTxout, n, ctx))
      && ReadWitness(Ctx(b, i)) == (if n > MAX_ITEMS then Abort else Many(ReadElement, n, ctx))
  {
    hide ReadVarint, FoldTxins, FoldTxouts, FoldElements, ReadTxin, ReadTxout, ReadElement;
    VarintAnswers(b, i);
    if ReadVarint(Ctx(b, i)).Ok? {
      var n, ctx := ReadVarint(Ctx(b, i)).value.value, ReadVarint(Ctx(b, i)).value.ctx;
      if n <= MAX_ITEMS {
        FoldTxinsIsMany(n, ctx, []);
        FoldTxoutsIsMany(n, ctx, []);
        FoldElementsIsMany(n, ctx, []);
        NothingBefore(Many(ReadTxin, n, ctx));
        NothingBefore(Many(ReadTxout, n, ctx));
        NothingBefore(Many(ReadElement, n, ctx));
      }
    }
  }

  lemma NothingBefore<T>(r: Outcome<Parsed<seq<T>>>)
    ensures r.Ok? ==> Parsed([] + r.value.value, r.value.ctx) == r.value
  {
    if r.Ok? {
      assert [] + r.value.value == r.value.value;
    }
  }

  /** parse-tx: the first reader that fails gives the answer, and only then are leftover bytes an error. */
  lemma ParseTxAnswers(b: Bytes)
    ensures |b| < 4 ==> ParseTx(b) == Err(1001)
    ensures |b| >= 4 ==>
      match ReadBody(Ctx(b, 4))
      case Err(e) => ParseTx(b) == Err(e)
      case Abort => ParseTx(b) == Abort
      case Ok(body) =>
        && (body.ctx.index + 4 > |b| ==> ParseTx(b) == Err(1001))
        && (body.ctx.index + 4 < |b| ==> ParseTx(b) == Err(1010))
        && (body.ctx.index + 4 == |b| ==> ParseTx(b).Ok?)
  {
    hide ReadUint, ReadTxins, ReadTxouts;
    UintAnswers(b, 0, 4);
    if |b| >= 4 && ReadBody(Ctx(b, 4)).Ok? {
      var body := ReadBody(Ctx(b, 4)).value;
      BodySound(b, 4, body);
      UintAnswers(b, body.ctx.index, 4);
    }
  }

  /** parse-wtx reads everything first; then wrong flags are an error, and then leftover bytes. */
  lemma ParseWtxAnswers(b: Bytes)
    ensures |b| < 6 ==> ParseWtx(b) == Err(1001)
    ensures |b| >= 6 ==>
      match ReadBody(Ctx(b, 6))
      case Err(e) => ParseWtx(b) == Err(e)
      case Abort => ParseWtx(b) == Abort
      case Ok(body) =>
        match ReadWitnesses(body.ctx, |body.value.0|)
        case Err(e) => ParseWtx(b) == Err(e)
        case Abort => ParseWtx(b) == Abort
        case Ok(ws) =>
          && (ws.ctx.index + 4 > |b| ==> ParseWtx(b) == Err(1001))
          && (ws.ctx.index + 4 <= |b| && (b[4] != 0 || b[5] != 1) ==> ParseWtx(b) == Err(1011))
          && (ws.ctx.index + 4 < |b| && b[4] == 0 && b[5] == 1 ==> ParseWtx(b) == Err(1010))
          && (ws.ctx.index + 4 == |b| && b[4] == 0 && b[5] == 1 ==> ParseWtx(b).Ok?)
  {
    hide ReadTxins, ReadTxouts, ReadWitnesses, ReadUint;
    UintAnswers(b, 0, 4);
    ByteAnswers(b, 4);
    ByteAnswers(b, 5);
    if |b| >= 6 && ReadBody(Ctx(b, 6)).Ok? {
      var body := ReadBody(Ctx(b, 6)).value;
      var ws := ReadWitnesses(body.ctx, |body.value.0|);
      if ws.Ok? {
        TailBounds(b, body, ws.value);
        UintAnswers(b, ws.value.ctx.index, 4);
      }
    }
  }

  /** The cursor stays on the buffer and moves forward. */
  lemma TailBounds(b: Bytes, body: Parsed<(seq<TxIn>, seq<TxOut>)>, ws: Parsed<seq<seq<Bytes>>>)
    requires ReadBody(Ctx(b, 6)) == Ok(body) && ReadWitnesses(body.ctx, |body.value.0|) == Ok(ws)
    ensures body.ctx.txbuff == ws.ctx.txbuff == b && 6 <= body.ctx.index <= ws.ctx.index <= |b|
  {
    hide ReadTxins, ReadTxouts, ReadWitnesses;
    BodySound(b, 6, body);
    WitnessesSound(b, body.ctx.index, |body.value.0|, ws);
  }

  lemma ByteAnswers(b: Bytes, i: nat)
    ensures i < |b| ==> ReadUint(Ctx(b, i), 1) == Ok(Parsed(b[i] as nat, Ctx(b, i + 1)))
    ensures i >= |b| ==> ReadUint(Ctx(b, i), 1) == Err(1001)
  {
    if i < |b| {
      assert b[i..i + 1] == [b[i]];
      assert FromLE([b[i]]) == b[i] as nat + 256 * FromLE([b[i]][1..]);
    }
  }

  /** The cut asks for less than parse-wtx: everything must be readable, but flags and leftover bytes do not matter,
      and whatever is not readable panics. */
  lemma DropWitnessAnswers(b: Bytes)
    ensures DropWitness(b).Ok? <==>
      && |b| >= 6 && ReadBody(Ctx(b, 6)).Ok?
      && var body := ReadBody(Ctx(b, 6)).value;
         && ReadWitnesses(body.ctx, |body.value.0|).Ok?
         && ReadWitnesses(body.ctx, |body.value.0|).value.ctx.index + 4 <= |b|
    ensures !DropWitness(b).Ok? ==> DropWitness(b) == Abort
    ensures DropWitness(b).Ok? ==>
      var body := ReadBody(Ctx(b, 6)).value;
      var ws := ReadWitnesses(body.ctx, |body.value.0|).value;
      && 6 <= body.ctx.index <= ws.ctx.index <= |b|
      && DropWitness(b).value == b[..4] + b[6..body.ctx.index] + b[ws.ctx.index..]
  {
    hide ReadTxins, ReadTxouts, ReadWitnesses, ReadUint;
    UintAnswers(b, 0, 4);
    UintAnswers(b, 4, 1);
    UintAnswers(b, 5, 1);
    if |b| >= 6 && ReadBody(Ctx(b, 6)).Ok? {
      var body := ReadBody(Ctx(b, 6)).value;
      var ws := ReadWitnesses(body.ctx, |body.value.0|);
      if ws.Ok? {
        TailBounds(b, body, ws.value);
        UintAnswers(b, ws.value.ctx.index, 4);
        assert b[0..4] == b[..4] && b[ws.value.ctx.index..|b|] == b[ws.value.ctx.index..];
      }
    }
  }
}
