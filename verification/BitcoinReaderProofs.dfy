/** Three facts about every reader: it returns what the encoder wrote (`...Print`), what it returns is
    never shorter to encode than the bytes it consumed (`...Sound`), and it looks only at the bytes it
    consumes (`...Move`). */
module BitcoinReaderProofs {
  import opened Clarity
  import opened BitcoinReader
  import opened BitcoinWire

  /** The window `[i, j)` of `b` is at least as long as `e`, and is `e` itself when the lengths agree. */
  ghost predicate Covers(b: Bytes, i: nat, j: nat, e: Bytes) {
    && i <= j <= |b|
    && |e| <= j - i
    && (j - i == |e| ==> Has(b, i, e))
  }

  lemma CoversConcat(b: Bytes, i: nat, j: nat, k: nat, e: Bytes, f: Bytes)
    requires Covers(b, i, j, e) && Covers(b, j, k, f)
    ensures Covers(b, i, k, e + f)
    ensures k - i == |e + f| <==> j - i == |e| && k - j == |f|
  {
    HasConcat(b, i, e, f);
  }

  // ---------- fixed-width integers, hashes ----------

  lemma {:induction false} FoldReverseAt(target: nat, b: Hash32, j: nat)
    requires 15 <= target < 32 && j < 32
    ensures FoldReverse(target, b)[j] == if 31 - target <= j <= target then b[31 - j] else b[j]
  {
    if target > 15 {
      FoldReverseAt(target - 1, InnerReverse(target, b), j);
    }
  }

  lemma ReverseBuff32IsReverse(b: Hash32)
    ensures ReverseBuff32(b) == Reverse(b)
  {
    forall j | 0 <= j < 32
      ensures ReverseBuff32(b)[j] == Reverse(b)[j]
    {
      FoldReverseAt(31, b, j);
    }
  }

  lemma UintPrint(b: Bytes, i: nat, v: nat, width: nat)
    requires v < Pow256(width) && Has(b, i, ToLE(v, width))
    ensures ReadUint(Ctx(b, i), width) == Ok(Parsed(v, Ctx(b, i + width)))
  {
    FromToLE(v, width);
  }

  lemma UintSound(b: Bytes, i: nat, width: nat, p: Parsed<nat>)
    requires ReadUint(Ctx(b, i), width) == Ok(p)
    ensures p.ctx == Ctx(b, i + width) && p.value < Pow256(width)
    ensures Has(b, i, ToLE(p.value, width))
    ensures Covers(b, i, i + width, ToLE(p.value, width))
  {
    FromLEBound(b[i..i + width]);
    ToFromLE(b[i..i + width]);
  }

  lemma UintMove(b: Bytes, i: nat, width: nat, p: Parsed<nat>, b': Bytes, i': nat)
    requires ReadUint(Ctx(b, i), width) == Ok(p)
    requires Has(b', i', b[i..i + width])
    ensures ReadUint(Ctx(b', i'), width) == Ok(Parsed(p.value, Ctx(b', i' + width)))
  {
  }

  lemma HashPrint(b: Bytes, i: nat, h: Bytes)
    requires |h| == 32 && Has(b, i, Reverse(h))
    ensures ReadHashslice(Ctx(b, i)) == Ok(Parsed(h, Ctx(b, i + 32)))
  {
    ReverseBuff32IsReverse(Reverse(h));
    ReverseInvolutive(h);
  }

  lemma HashSound(b: Bytes, i: nat, p: Parsed<Bytes>)
    requires ReadHashslice(Ctx(b, i)) == Ok(p)
    ensures p.ctx == Ctx(b, i + 32) && |p.value| == 32
    ensures Covers(b, i, i + 32, Reverse(p.value))
  {
    ReverseBuff32IsReverse(b[i..i + 32]);
    ReverseInvolutive(b[i..i + 32]);
  }

  lemma HashMove(b: Bytes, i: nat, p: Parsed<Bytes>, b': Bytes, i': nat)
    requires ReadHashslice(Ctx(b, i)) == Ok(p) && Has(b', i', b[i..i + 32])
    ensures ReadHashslice(Ctx(b', i')) == Ok(Parsed(p.value, Ctx(b', i' + 32)))
  {
    hide FoldReverse;
  }

  // ---------- CompactSize and length-prefixed slices ----------

  lemma VarintPrint(b: Bytes, i: nat, v: nat)
    requires v < 0x1_0000_0000_0000_0000 && Has(b, i, EncodeVarint(v))
    ensures ReadVarint(Ctx(b, i)) == Ok(Parsed(v, Ctx(b, i + VarintWidth(v))))
  {
    Pow256Values();
    assert b[i] == b[i..i + VarintWidth(v)][0];
    if v > 252 {
      var width := VarintWidth(v) - 1;
      HasConcat(b, i, EncodeVarint(v)[..1], ToLE(v, width));
      assert EncodeVarint(v) == EncodeVarint(v)[..1] + ToLE(v, width);
      UintPrint(b, i + 1, v, width);
    }
  }

  lemma WideVarintSound(b: Bytes, i: nat, width: nat, p: Parsed<nat>)
    requires i < |b| && ReadUint(Ctx(b, i + 1), width) == Ok(p)
    requires (width, b[i]) in {(2, 253), (4, 254), (8, 255)}
    ensures p.ctx == Ctx(b, i + 1 + width) && p.value < 0x1_0000_0000_0000_0000
    ensures VarintWidth(p.value) <= 1 + width <= |b| - i
    ensures VarintWidth(p.value) == 1 + width ==> Has(b, i, EncodeVarint(p.value))
  {
    hide FromLE, ToLE;
    Pow256Values();
    UintSound(b, i + 1, width, p);
    HasConcat(b, i, [b[i]], ToLE(p.value, width));
  }

  /** An accepted CompactSize is minimal exactly when it is as short as the encoder would make it. */
  lemma VarintSound(b: Bytes, i: nat, p: Parsed<nat>)
    requires ReadVarint(Ctx(b, i)) == Ok(p)
    ensures p.ctx.txbuff == b && p.value < 0x1_0000_0000_0000_0000 && i < p.ctx.index
    ensures Covers(b, i, p.ctx.index, EncodeVarint(p.value))
    ensures MinimalVarintAt(b, i) <==> p.ctx.index - i == VarintWidth(p.value)
  {
    hide ReadUint, ToLE;
    if b[i] > 252 {
      WideVarintSound(b, i, if b[i] == 253 then 2 else if b[i] == 254 then 4 else 8, p);
    }
  }

  lemma VarintMove(b: Bytes, i: nat, p: Parsed<nat>, b': Bytes, i': nat)
    requires ReadVarint(Ctx(b, i)) == Ok(p) && i <= p.ctx.index <= |b|
    requires Has(b', i', b[i..p.ctx.index])
    ensures ReadVarint(Ctx(b', i')) == Ok(Parsed(p.value, Ctx(b', i' + p.ctx.index - i)))
  {
    hide EncodeVarint, FromLE, MinimalVarintAt;
    VarintSound(b, i, p);
    assert b'[i'] == b'[i'..i' + p.ctx.index - i][0] == b[i];
    if b[i] > 252 {
      var width := if b[i] == 253 then 2 else if b[i] == 254 then 4 else 8;
      HasWindow(b, i, p.ctx.index, b', i', i + 1, p.ctx.index);
      UintMove(b, i + 1, width, p, b', i' + 1);
    }
  }

  lemma SlicePrint(b: Bytes, i: nat, s: Bytes)
    requires |s| < 0x1_0000_0000_0000_0000 && Has(b, i, EncodeSlice(s))
    ensures ReadVarslice(Ctx(b, i)) == Ok(Parsed(s, Ctx(b, i + |EncodeSlice(s)|)))
  {
    hide EncodeVarint, ReadVarint;
    HasConcat(b, i, EncodeVarint(|s|), s);
    VarintPrint(b, i, |s|);
  }

  lemma SliceSound(b: Bytes, i: nat, p: Parsed<Bytes>)
    requires ReadVarslice(Ctx(b, i)) == Ok(p)
    ensures p.ctx.txbuff == b
    ensures Covers(b, i, p.ctx.index, EncodeSlice(p.value))
    ensures MinimalVarintAt(b, i) <==> p.ctx.index - i == |EncodeSlice(p.value)|
  {
    var length := ReadVarint(Ctx(b, i)).value;
    VarintSound(b, i, length);
    CoversConcat(b, i, length.ctx.index, p.ctx.index, EncodeVarint(length.value), p.value);
  }

  lemma SliceMove(b: Bytes, i: nat, p: Parsed<Bytes>, b': Bytes, i': nat)
    requires ReadVarslice(Ctx(b, i)) == Ok(p) && i <= p.ctx.index <= |b|
    requires Has(b', i', b[i..p.ctx.index])
    ensures ReadVarslice(Ctx(b', i')) == Ok(Parsed(p.value, Ctx(b', i' + p.ctx.index - i)))
  {
    hide ReadVarint, EncodeVarint;
    var length := ReadVarint(Ctx(b, i)).value;
    VarintSound(b, i, length);
    HasWindow(b, i, p.ctx.index, b', i', i, length.ctx.index);
    VarintMove(b, i, length, b', i');
    HasWindow(b, i, p.ctx.index, b', i', length.ctx.index, p.ctx.index);
  }

  // ---------- codecs: a reader, its encoder, and the laws that tie them ----------

  datatype Codec<!T> = Codec(read: Ctx -> Outcome<Parsed<T>>, encode: T -> Bytes, fits: T -> bool,
                             minimalAt: (Bytes, nat) -> bool)

  ghost predicate PrintLaw<T>(c: Codec<T>, b: Bytes, i: nat, x: T) {
    c.fits(x) && Has(b, i, c.encode(x)) ==>
      c.read(Ctx(b, i)) == Ok(Parsed(x, Ctx(b, i + |c.encode(x)|)))
  }

  ghost predicate SoundLaw<T>(c: Codec<T>, b: Bytes, i: nat) {
    var r := c.read(Ctx(b, i));
    r.Ok? ==>
      && r.value.ctx.txbuff == b
      && c.fits(r.value.value)
      && Covers(b, i, r.value.ctx.index, c.encode(r.value.value))
      && (c.minimalAt(b, i) <==> r.value.ctx.index - i == |c.encode(r.value.value)|)
  }

  ghost predicate MoveLaw<T>(c: Codec<T>, b: Bytes, i: nat, b': Bytes, i': nat) {
    var r := c.read(Ctx(b, i));
    r.Ok? && i <= r.value.ctx.index <= |b| && Has(b', i', b[i..r.value.ctx.index]) ==>
      c.read(Ctx(b', i')) == Ok(Parsed(r.value.value, Ctx(b', i' + r.value.ctx.index - i)))
  }

  ghost predicate Lawful<T(!new)>(c: Codec<T>) {
    && (forall b, i, x :: PrintLaw(c, b, i, x))
    && (forall b, i :: SoundLaw(c, b, i))
    && (forall b, i, b', i' :: MoveLaw(c, b, i, b', i'))
  }

  /** The `n` items read one after the other; the plain form of the contract's folds. */
  ghost function Many<T>(read: Ctx -> Outcome<Parsed<T>>, n: nat, ctx: Ctx): Outcome<Parsed<seq<T>>>
    decreases n
  {
    if n == 0 then Ok(Parsed([], ctx))
    else
      var x :- read(ctx);
      var rest :- Many(read, n - 1, x.ctx);
      Ok(Parsed([x.value] + rest.value, rest.ctx))
  }

  ghost predicate AllFit<T>(c: Codec<T>, xs: seq<T>) {
    forall k :: 0 <= k < |xs| ==> c.fits(xs[k])
  }

  lemma {:induction false} ManyPrint<T(!new)>(c: Codec<T>, b: Bytes, i: nat, xs: seq<T>)
    requires Lawful(c) && AllFit(c, xs) && Has(b, i, EncodeAll(c.encode, xs))
    ensures Many(c.read, |xs|, Ctx(b, i)) == Ok(Parsed(xs, Ctx(b, i + |EncodeAll(c.encode, xs)|)))
    decreases |xs|
  {
    if xs != [] {
      HasConcat(b, i, c.encode(xs[0]), EncodeAll(c.encode, xs[1..]));
      assert PrintLaw(c, b, i, xs[0]);
      ManyPrint(c, b, i + |c.encode(xs[0])|, xs[1..]);
      assert xs == [xs[0]] + xs[1..];
    }
  }

  lemma {:induction false} ManySound<T(!new)>(c: Codec<T>, b: Bytes, i: nat, n: nat)
    requires Lawful(c) && i <= |b| && Many(c.read, n, Ctx(b, i)).Ok?
    ensures var p := Many(c.read, n, Ctx(b, i)).value;
      && p.ctx.txbuff == b && |p.value| == n && AllFit(c, p.value)
      && Covers(b, i, p.ctx.index, EncodeAll(c.encode, p.value))
      && (MinimalAll(c.minimalAt, c.read, b, i, n) <==> p.ctx.index - i == |EncodeAll(c.encode, p.value)|)
    decreases n
  {
    if n > 0 {
      assert SoundLaw(c, b, i);
      var x := c.read(Ctx(b, i)).value;
      ManySound(c, b, x.ctx.index, n - 1);
      var p := Many(c.read, n, Ctx(b, i)).value;
      assert p.value[1..] == Many(c.read, n - 1, x.ctx).value.value;
      CoversConcat(b, i, x.ctx.index, p.ctx.index, c.encode(x.value), EncodeAll(c.encode, p.value[1..]));
    }
  }

  lemma {:induction false} ManyMove<T(!new)>(c: Codec<T>, b: Bytes, i: nat, n: nat, b': Bytes, i': nat)
    requires Lawful(c) && i <= |b| && Many(c.read, n, Ctx(b, i)).Ok?
    requires var j := Many(c.read, n, Ctx(b, i)).value.ctx.index; i <= j <= |b| && Has(b', i', b[i..j])
    ensures var p := Many(c.read, n, Ctx(b, i)).value;
      Many(c.read, n, Ctx(b', i')) == Ok(Parsed(p.value, Ctx(b', i' + p.ctx.index - i)))
    decreases n
  {
    hide EncodeAll, MinimalAll, Has;
    if n > 0 {
      assert SoundLaw(c, b, i);
      var x := c.read(Ctx(b, i)).value;
      ManySound(c, b, x.ctx.index, n - 1);
      var j := Many(c.read, n, Ctx(b, i)).value.ctx.index;
      HasWindow(b, i, j, b', i', i, x.ctx.index);
      HasWindow(b, i, j, b', i', x.ctx.index, j);
      assert MoveLaw(c, b, i, b', i');
      ManyMove(c, b, x.ctx.index, n - 1, b', i' + x.ctx.index - i);
    }
  }

  /** A CompactSize count within the cap, then that many items. */
  ghost function Counted<T>(read: Ctx -> Outcome<Parsed<T>>, ctx: Ctx): Outcome<Parsed<seq<T>>> {
    var count :- ReadVarint(ctx);
    if count.value > MAX_ITEMS then Abort else Many(read, count.value, count.ctx)
  }

  lemma CountedPrint<T(!new)>(c: Codec<T>, b: Bytes, i: nat, xs: seq<T>)
    requires Lawful(c) && AllFit(c, xs) && |xs| <= MAX_ITEMS && Has(b, i, EncodeCounted(c.encode, xs))
    ensures Counted(c.read, Ctx(b, i)) == Ok(Parsed(xs, Ctx(b, i + |EncodeCounted(c.encode, xs)|)))
  {
    HasConcat(b, i, EncodeVarint(|xs|), EncodeAll(c.encode, xs));
    VarintPrint(b, i, |xs|);
    ManyPrint(c, b, i + VarintWidth(|xs|), xs);
  }

  lemma CountedSound<T(!new)>(c: Codec<T>, b: Bytes, i: nat)
    requires Lawful(c) && Counted(c.read, Ctx(b, i)).Ok?
    ensures var p := Counted(c.read, Ctx(b, i)).value;
      && p.ctx.txbuff == b && |p.value| <= MAX_ITEMS && AllFit(c, p.value)
      && Covers(b, i, p.ctx.index, EncodeCounted(c.encode, p.value))
      && (MinimalCounted(c.minimalAt, c.read, b, i) <==> p.ctx.index - i == |EncodeCounted(c.encode, p.value)|)
  {
    var count := ReadVarint(Ctx(b, i)).value;
    VarintSound(b, i, count);
    ManySound(c, b, count.ctx.index, count.value);
    var p := Counted(c.read, Ctx(b, i)).value;
    CoversConcat(b, i, count.ctx.index, p.ctx.index, EncodeVarint(count.value), EncodeAll(c.encode, p.value));
  }

  lemma CountedMove<T(!new)>(c: Codec<T>, b: Bytes, i: nat, b': Bytes, i': nat)
    requires Lawful(c) && Counted(c.read, Ctx(b, i)).Ok?
    requires var j := Counted(c.read, Ctx(b, i)).value.ctx.index; i <= j <= |b| && Has(b', i', b[i..j])
    ensures var p := Counted(c.read, Ctx(b, i)).value;
      Counted(c.read, Ctx(b', i')) == Ok(Parsed(p.value, Ctx(b', i' + p.ctx.index - i)))
  {
    hide ReadVarint, EncodeVarint, EncodeAll, MinimalAll, Has;
    var count := ReadVarint(Ctx(b, i)).value;
    VarintSound(b, i, count);
    ManySound(c, b, count.ctx.index, count.value);
    var j := Counted(c.read, Ctx(b, i)).value.ctx.index;
    HasWindow(b, i, j, b', i', i, count.ctx.index);
    VarintMove(b, i, count, b', i');
    HasWindow(b, i, j, b', i', count.ctx.index, j);
    ManyMove(c, b, count.ctx.index, count.value, b', i' + count.ctx.index - i);
  }

  // ---------- the codecs of the transaction parts ----------

  function TxinCodec(): Codec<TxIn> {
    Codec(ReadTxin, EncodeTxin, TxinFits, MinimalTxinAt)
  }

  function TxoutCodec(): Codec<TxOut> {
    Codec(ReadTxout, EncodeTxout, TxoutFits, MinimalTxoutAt)
  }

  function ElementCodec(): Codec<Bytes> {
    Codec(ReadElement, EncodeSlice, ElementFits, MinimalVarintAt)
  }

  function WitnessCodec(): Codec<seq<Bytes>> {
    Codec(ReadWitness, EncodeWitness, WitnessFits, MinimalWitnessAt)
  }

  lemma TxinPrint(b: Bytes, i: nat, t: TxIn)
    ensures PrintLaw(TxinCodec(), b, i, t)
  {
    hide EncodeSlice, ReadVarslice, ReadHashslice, ReadUint, Has, ToLE, Reverse;
    if TxinFits(t) && Has(b, i, EncodeTxin(t)) {
      Pow256Values();
      var hash, index, script, sequence :=
        Reverse(t.hash), ToLE(t.index, 4), EncodeSlice(t.scriptSig), ToLE(t.sequence, 4);
      ReverseInvolutive(t.hash);
      HasConcat(b, i, hash + index + script, sequence);
      HasConcat(b, i, hash + index, script);
      HasConcat(b, i, hash, index);
      HashPrint(b, i, t.hash);
      UintPrint(b, i + 32, t.index, 4);
      SlicePrint(b, i + 36, t.scriptSig);
      UintPrint(b, i + 36 + |script|, t.sequence, 4);
    }
  }

  lemma TxinSound(b: Bytes, i: nat)
    ensures SoundLaw(TxinCodec(), b, i)
  {
    hide ReadVarslice, ReverseBuff32, FromLE, EncodeSlice, ToLE;
    if ReadTxin(Ctx(b, i)).Ok? {
      Pow256Values();
      var hash := ReadHashslice(Ctx(b, i)).value;
      HashSound(b, i, hash);
      var index := ReadUint(hash.ctx, 4).value;
      UintSound(b, i + 32, 4, index);
      var script := ReadVarslice(index.ctx).value;
      SliceSound(b, i + 36, script);
      var j := script.ctx.index;
      var sequence := ReadUint(script.ctx, 4).value;
      UintSound(b, j, 4, sequence);
      var h, x, s := Reverse(hash.value), ToLE(index.value, 4), EncodeSlice(script.value);
      CoversConcat(b, i, i + 32, i + 36, h, x);
      CoversConcat(b, i, i + 36, j, h + x, s);
      CoversConcat(b, i, j, j + 4, h + x + s, ToLE(sequence.value, 4));
    }
  }

  lemma SliceEnds(b: Bytes, i: nat, p: Parsed<Bytes>)
    requires ReadVarslice(Ctx(b, i)) == Ok(p)
    ensures i <= p.ctx.index <= |b| && p.ctx.txbuff == b
  {
    hide FromLE;
  }

  lemma {:induction false} TxinMove(b: Bytes, i: nat, b': Bytes, i': nat)
    ensures MoveLaw(TxinCodec(), b, i, b', i')
  {
    hide ReadUint, ReadHashslice, ReadVarslice, Has, EncodeSlice, ToLE, Covers, MinimalVarintAt;
    var r := ReadTxin(Ctx(b, i));
    if r.Ok? && i <= r.value.ctx.index <= |b| && Has(b', i', b[i..r.value.ctx.index]) {
      var hash := ReadHashslice(Ctx(b, i)).value;
      HashSound(b, i, hash);
      var index := ReadUint(hash.ctx, 4).value;
      UintSound(b, i + 32, 4, index);
      var script := ReadVarslice(index.ctx).value;
      SliceSound(b, i + 36, script);
      var j, k := script.ctx.index, r.value.ctx.index;
      UintSound(b, j, 4, ReadUint(script.ctx, 4).value);
      SliceEnds(b, i + 36, script);
      HasWindow(b, i, k, b', i', i, i + 32);
      HashMove(b, i, hash, b', i');
      HasWindow(b, i, k, b', i', i + 32, i + 36);
      UintMove(b, i + 32, 4, index, b', i' + 32);
      HasWindow(b, i, k, b', i', i + 36, j);
      SliceMove(b, i + 36, script, b', i' + 36);
      HasWindow(b, i, k, b', i', j, j + 4);
      UintMove(b, j, 4, ReadUint(script.ctx, 4).value, b', i' + j - i);
    }
  }

  lemma {:induction false} TxinLawful()
    ensures Lawful(TxinCodec())
  {
    forall b, i: nat, t ensures PrintLaw(TxinCodec(), b, i, t) { TxinPrint(b, i, t); }
    forall b, i: nat ensures SoundLaw(TxinCodec(), b, i) { TxinSound(b, i); }
    forall b, i: nat, b', i': nat ensures MoveLaw(TxinCodec(), b, i, b', i') { TxinMove(b, i, b', i'); }
  }

  lemma {:induction false} TxoutPrint(b: Bytes, i: nat, t: TxOut)
    ensures PrintLaw(TxoutCodec(), b, i, t)
  {
    hide EncodeVarint, ReadVarslice, FromLE;
    if TxoutFits(t) && Has(b, i, EncodeTxout(t)) {
      Pow256Values();
      HasConcat(b, i, ToLE(t.value, 8), EncodeSlice(t.scriptPubKey));
      UintPrint(b, i, t.value, 8);
      SlicePrint(b, i + 8, t.scriptPubKey);
    }
  }

  lemma TxoutSound(b: Bytes, i: nat)
    ensures SoundLaw(TxoutCodec(), b, i)
  {
    hide ReadVarslice, FromLE, EncodeSlice, ToLE;
    if ReadTxout(Ctx(b, i)).Ok? {
      Pow256Values();
      var value := ReadUint(Ctx(b, i), 8).value;
      UintSound(b, i, 8, value);
      var script := ReadVarslice(value.ctx).value;
      SliceSound(b, i + 8, script);
      CoversConcat(b, i, i + 8, script.ctx.index, ToLE(value.value, 8), EncodeSlice(script.value));
    }
  }

  lemma TxoutMove(b: Bytes, i: nat, b': Bytes, i': nat)
    ensures MoveLaw(TxoutCodec(), b, i, b', i')
  {
    hide ReadVarslice, FromLE;
    var r := ReadTxout(Ctx(b, i));
    if r.Ok? && i <= r.value.ctx.index <= |b| && Has(b', i', b[i..r.value.ctx.index]) {
      var value := ReadUint(Ctx(b, i), 8).value;
      var script := ReadVarslice(value.ctx).value;
      SliceSound(b, i + 8, script);
      HasWindow(b, i, r.value.ctx.index, b', i', i, i + 8);
      UintMove(b, i, 8, value, b', i');
      HasWindow(b, i, r.value.ctx.index, b', i', i + 8, script.ctx.index);
      SliceMove(b, i + 8, script, b', i' + 8);
    }
  }

  lemma {:induction false} TxoutLawful()
    ensures Lawful(TxoutCodec())
  {
    forall b, i: nat, t ensures PrintLaw(TxoutCodec(), b, i, t) { TxoutPrint(b, i, t); }
    forall b, i: nat ensures SoundLaw(TxoutCodec(), b, i) { TxoutSound(b, i); }
    forall b, i: nat, b', i': nat ensures MoveLaw(TxoutCodec(), b, i, b', i') { TxoutMove(b, i, b', i'); }
  }

  lemma {:induction false} ElementLawful()
    ensures Lawful(ElementCodec())
  {
    hide ReadVarslice, EncodeSlice, MinimalVarintAt;
    forall b, i: nat, s ensures PrintLaw(ElementCodec(), b, i, s) {
      if ElementFits(s) && Has(b, i, EncodeSlice(s)) {
        SlicePrint(b, i, s);
      }
    }
    forall b, i: nat ensures SoundLaw(ElementCodec(), b, i) {
      if ReadElement(Ctx(b, i)).Ok? {
        SliceSound(b, i, ReadElement(Ctx(b, i)).value);
      }
    }
    forall b, i: nat, b', i': nat ensures MoveLaw(ElementCodec(), b, i, b', i') {
      var r := ReadElement(Ctx(b, i));
      if r.Ok? && i <= r.value.ctx.index <= |b| && Has(b', i', b[i..r.value.ctx.index]) {
        SliceMove(b, i, r.value, b', i');
      }
    }
  }

  // ---------- the contract's folds read what `Many` and `Counted` read ----------

  lemma {:induction false} TxinsFail(n: nat, res: Outcome<TxinState>)
    requires !res.Ok?
    ensures FoldTxins(n, res) == res
  {
    if n > 0 {
      TxinsFail(n - 1, res);
    }
  }

  lemma {:induction false} FoldTxinsIsMany(n: nat, ctx: Ctx, acc: seq<TxIn>)
    requires |acc| + n <= MAX_ITEMS
    ensures FoldTxins(n, Ok(TxinState(ctx, n, acc))) ==
      match Many(ReadTxin, n, ctx)
      case Ok(p) => Ok(TxinState(p.ctx, 0, acc + p.value))
      case Err(e) => Err(e)
      case Abort => Abort
    decreases n
  {
    hide ReadTxin;
    if n == 0 {
      assert acc + [] == acc;
    } else {
      var x := ReadTxin(ctx);
      if x.Ok? {
        FoldTxinsIsMany(n - 1, x.value.ctx, acc + [x.value.value]);
        var rest := Many(ReadTxin, n - 1, x.value.ctx);
        if rest.Ok? {
          assert acc + [x.value.value] + rest.value.value == acc + ([x.value.value] + rest.value.value);
        }
      } else {
        TxinsFail(n - 1, ReadNextTxin(Ok(TxinState(ctx, n, acc))));
      }
    }
  }

  lemma {:induction false} TxoutsFail(n: nat, res: Outcome<Parsed<seq<TxOut>>>)
    requires !res.Ok?
    ensures FoldTxouts(n, res) == res
  {
    if n > 0 {
      TxoutsFail(n - 1, res);
    }
  }

  lemma {:induction false} FoldTxoutsIsMany(n: nat, ctx: Ctx, acc: seq<TxOut>)
    requires |acc| + n <= MAX_ITEMS
    ensures FoldTxouts(n, Ok(Parsed(acc, ctx))) ==
      match Many(ReadTxout, n, ctx)
      case Ok(p) => Ok(Parsed(acc + p.value, p.ctx))
      case Err(e) => Err(e)
      case Abort => Abort
    decreases n
  {
    hide ReadTxout;
    if n == 0 {
      assert acc + [] == acc;
    } else {
      var x := ReadTxout(ctx);
      if x.Ok? {
        FoldTxoutsIsMany(n - 1, x.value.ctx, acc + [x.value.value]);
        var rest := Many(ReadTxout, n - 1, x.value.ctx);
        if rest.Ok? {
          assert acc + [x.value.value] + rest.value.value == acc + ([x.value.value] + rest.value.value);
        }
      } else {
        TxoutsFail(n - 1, ReadNextTxout(Ok(Parsed(acc, ctx))));
      }
    }
  }

  lemma {:induction false} ElementsFail(n: nat, res: Outcome<Parsed<seq<Bytes>>>)
    requires !res.Ok?
    ensures FoldElements(n, res) == res
  {
    if n > 0 {
      ElementsFail(n - 1, res);
    }
  }

  lemma {:induction false} FoldElementsIsMany(n: nat, ctx: Ctx, acc: seq<Bytes>)
    requires |acc| + n <= MAX_ITEMS
    ensures FoldElements(n, Ok(Parsed(acc, ctx))) ==
      match Many(ReadElement, n, ctx)
      case Ok(p) => Ok(Parsed(acc + p.value, p.ctx))
      case Err(e) => Err(e)
      case Abort => Abort
    decreases n
  {
    hide ReadElement;
    if n == 0 {
      assert acc + [] == acc;
    } else {
      var x := ReadElement(ctx);
      if x.Ok? {
        FoldElementsIsMany(n - 1, x.value.ctx, acc + [x.value.value]);
        var rest := Many(ReadElement, n - 1, x.value.ctx);
        if rest.Ok? {
          assert acc + [x.value.value] + rest.value.value == acc + ([x.value.value] + rest.value.value);
        }
      } else {
        ElementsFail(n - 1, ReadNextElement(Ok(Parsed(acc, ctx))));
      }
    }
  }

  /** Once the witness fold has failed it stays failed, and every later input turns the error into 1. */
  lemma {:induction false} WitnessesFail(n: nat, res: Outcome<Parsed<seq<seq<Bytes>>>>)
    requires !res.Ok?
    ensures FoldWitnesses(n, res) == if n == 0 || res.Abort? then res else Err(1)
    decreases n
  {
    if n > 0 {
      WitnessesFail(n - 1, ReadNextWitness(res));
    }
  }

  /** The witness fold reads what `Many` reads; an error keeps its code exactly when it is the last input's,
      and is error 1 otherwise. */
  lemma {:induction false} FoldWitnessesIsMany(n: nat, ctx: Ctx, acc: seq<seq<Bytes>>)
    requires |acc| + n <= MAX_ITEMS
    ensures var fold, many := FoldWitnesses(n, Ok(Parsed(acc, ctx))), Many(ReadWitness, n, ctx);
      && (many.Ok? <==> fold.Ok?) && (many.Abort? <==> fold.Abort?)
      && (many.Ok? ==> fold.value == Parsed(acc + many.value.value, many.value.ctx))
      && (many.Err? ==> fold.code == if Many(ReadWitness, n - 1, ctx).Ok? then many.code else 1)
    decreases n
  {
    hide ReadWitness;
    if n == 0 {
      assert acc + [] == acc;
    } else {
      var x := ReadWitness(ctx);
      if x.Ok? {
        FoldWitnessesIsMany(n - 1, x.value.ctx, acc + [x.value.value]);
        var rest := Many(ReadWitness, n - 1, x.value.ctx);
        if rest.Ok? {
          assert acc + [x.value.value] + rest.value.value == acc + ([x.value.value] + rest.value.value);
        }
      } else {
        WitnessesFail(n - 1, ReadNextWitness(Ok(Parsed(acc, ctx))));
      }
    }
  }

  ghost predicate SameWhenOk<T>(a: Outcome<T>, b: Outcome<T>) {
    (a.Ok? <==> b.Ok?) && (a.Ok? ==> a == b)
  }

  lemma ReadTxinsIsCounted(ctx: Ctx)
    ensures SameWhenOk(ReadTxins(ctx), Counted(ReadTxin, ctx))
  {
    hide ReadVarint;
    var count := ReadVarint(ctx);
    if count.Ok? && count.value.value <= MAX_ITEMS {
      FoldTxinsIsMany(count.value.value, count.value.ctx, []);
      var many := Many(ReadTxin, count.value.value, count.value.ctx);
      assert many.Ok? ==> [] + many.value.value == many.value.value;
    }
  }

  lemma ReadTxoutsIsCounted(ctx: Ctx)
    ensures SameWhenOk(ReadTxouts(ctx), Counted(ReadTxout, ctx))
  {
    hide ReadVarint;
    var count := ReadVarint(ctx);
    if count.Ok? && count.value.value <= MAX_ITEMS {
      FoldTxoutsIsMany(count.value.value, count.value.ctx, []);
      var many := Many(ReadTxout, count.value.value, count.value.ctx);
      assert many.Ok? ==> [] + many.value.value == many.value.value;
    }
  }

  lemma ReadWitnessIsCounted(ctx: Ctx)
    ensures SameWhenOk(ReadWitness(ctx), Counted(ReadElement, ctx))
  {
    hide ReadVarint;
    var count := ReadVarint(ctx);
    if count.Ok? && count.value.value <= MAX_ITEMS {
      FoldElementsIsMany(count.value.value, count.value.ctx, []);
      var many := Many(ReadElement, count.value.value, count.value.ctx);
      assert many.Ok? ==> [] + many.value.value == many.value.value;
    }
  }

  lemma {:induction false} WitnessLawful()
    ensures Lawful(WitnessCodec())
  {
    hide ReadWitness, ReadElement, EncodeCounted, MinimalCounted, Counted;
    ElementLawful();
    var c, e := WitnessCodec(), ElementCodec();
    forall b, i: nat, w ensures PrintLaw(c, b, i, w) {
      if WitnessFits(w) && Has(b, i, EncodeWitness(w)) {
        CountedPrint(e, b, i, w);
        ReadWitnessIsCounted(Ctx(b, i));
      }
    }
    forall b, i: nat ensures SoundLaw(c, b, i) {
      ReadWitnessIsCounted(Ctx(b, i));
      if ReadWitness(Ctx(b, i)).Ok? {
        CountedSound(e, b, i);
      }
    }
    forall b, i: nat, b', i': nat ensures MoveLaw(c, b, i, b', i') {
      var r := ReadWitness(Ctx(b, i));
      ReadWitnessIsCounted(Ctx(b, i));
      if r.Ok? && i <= r.value.ctx.index <= |b| && Has(b', i', b[i..r.value.ctx.index]) {
        CountedMove(e, b, i, b', i');
        ReadWitnessIsCounted(Ctx(b', i'));
      }
    }
  }
}
