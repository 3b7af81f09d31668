/** clarity-bitcoin-helper: building a legacy transaction or a header from raw field buffers. */
module LegacyPrinter {
  import opened Clarity
  import opened BitcoinReader
  import opened BitcoinWire
  import opened BitcoinReaderProofs
  import opened BitcoinTxProofs

  const MAX_RAW_TX: nat := 1024

  datatype RawIn = RawIn(hash: Bytes, index: Bytes, scriptSig: Bytes, sequence: Bytes)
  datatype RawOut = RawOut(value: Bytes, scriptPubKey: Bytes)
  datatype RawTx = RawTx(version: Bytes, ins: seq<RawIn>, outs: seq<RawOut>, locktime: Bytes)
  datatype RawHeader = RawHeader(version: Bytes, parent: Bytes, merkleRoot: Bytes, timestamp: Bytes,
                                 nbits: Bytes, nonce: Bytes)

  function Cap(b: Bytes): Outcome<Bytes> {
    if |b| <= MAX_RAW_TX then Ok(b) else Abort
  }

  /** BUFF_TO_BYTE has the 256 one-byte buffers; a longer length panics. */
  function LengthByte(n: nat): Outcome<Bytes> {
    if n < 256 then Ok([n as Byte]) else Abort
  }

  function ConcatVar(b: Bytes): Outcome<Bytes> {
    var length :- LengthByte(|b|);
    Ok(length + b)
  }

  function ConcatIn(txin: RawIn, result: Outcome<Bytes>): Outcome<Bytes> {
    var r :- result;
    var script :- ConcatVar(txin.scriptSig);
    Cap(r + txin.hash + txin.index + script + txin.sequence)
  }

  function FoldIns(ins: seq<RawIn>, result: Outcome<Bytes>): Outcome<Bytes> {
    if ins == [] then result else FoldIns(ins[1..], ConcatIn(ins[0], result))
  }

  function ConcatIns(ins: seq<RawIn>): Outcome<Bytes> {
    var count :- LengthByte(|ins|);
    var body :- FoldIns(ins, Ok([]));
    Cap(count + body)
  }

  function ConcatOut(txout: RawOut, result: Outcome<Bytes>): Outcome<Bytes> {
    var r :- result;
    var script :- ConcatVar(txout.scriptPubKey);
    Cap(r + txout.value + script)
  }

  function FoldOuts(outs: seq<RawOut>, result: Outcome<Bytes>): Outcome<Bytes> {
    if outs == [] then result else FoldOuts(outs[1..], ConcatOut(outs[0], result))
  }

  function ConcatOuts(outs: seq<RawOut>): Outcome<Bytes> {
    var count :- LengthByte(|outs|);
    var body :- FoldOuts(outs, Ok([]));
    Cap(count + body)
  }

  function ConcatTx(t: RawTx): Outcome<Bytes> {
    var ins :- ConcatIns(t.ins);
    var outs :- ConcatOuts(t.outs);
    Cap(t.version + ins + outs + t.locktime)
  }

  function ConcatHeader(h: RawHeader): Bytes {
    h.version + h.parent + h.merkleRoot + h.timestamp + h.nbits + h.nonce
  }

  // ---------- what the raw fields mean ----------

  function DecodeIn(r: RawIn): TxIn {
    TxIn(Reverse(r.hash), FromLE(r.index), r.scriptSig, FromLE(r.sequence))
  }

  function DecodeOut(r: RawOut): TxOut {
    TxOut(FromLE(r.value), r.scriptPubKey)
  }

  function DecodeIns(rs: seq<RawIn>): (ts: seq<TxIn>)
    ensures |ts| == |rs| && forall k :: 0 <= k < |rs| ==> ts[k] == DecodeIn(rs[k])
  {
    seq(|rs|, k requires 0 <= k < |rs| => DecodeIn(rs[k]))
  }

  function DecodeOuts(rs: seq<RawOut>): (ts: seq<TxOut>)
    ensures |ts| == |rs| && forall k :: 0 <= k < |rs| ==> ts[k] == DecodeOut(rs[k])
  {
    seq(|rs|, k requires 0 <= k < |rs| => DecodeOut(rs[k]))
  }

  function Decode(t: RawTx): Tx {
    Tx(FromLE(t.version), DecodeIns(t.ins), DecodeOuts(t.outs), FromLE(t.locktime))
  }

  /** Full-width fields within the declared list and buffer bounds of the helper. */
  predicate InTyped(r: RawIn) {
    |r.hash| == 32 && |r.index| == 4 && |r.sequence| == 4 && |r.scriptSig| <= 256
  }

  predicate OutTyped(r: RawOut) {
    |r.value| == 8 && |r.scriptPubKey| <= 128
  }

  predicate RawTyped(t: RawTx) {
    && |t.version| == 4 && |t.locktime| == 4 && |t.ins| <= 8 && |t.outs| <= 8
    && (forall k :: 0 <= k < |t.ins| ==> InTyped(t.ins[k]))
    && (forall k :: 0 <= k < |t.outs| ==> OutTyped(t.outs[k]))
  }

  /** Every scriptSig is short enough for a one-byte CompactSize. */
  predicate ShortScripts(ins: seq<RawIn>) {
    forall k :: 0 <= k < |ins| ==> |ins[k].scriptSig| <= 252
  }

  // ---------- the printer writes one length byte, the wire form one CompactSize ----------

  lemma InWire(r: RawIn)
    requires InTyped(r) && |r.scriptSig| < 256
    ensures var wire, script := EncodeTxin(DecodeIn(r)), ConcatVar(r.scriptSig).value;
      if |r.scriptSig| <= 252 then wire == r.hash + r.index + script + r.sequence
      else |wire| > |r.hash + r.index + script + r.sequence|
  {
    ReverseInvolutive(r.hash);
    ToFromLE(r.index);
    ToFromLE(r.sequence);
  }

  lemma {:induction false} FoldInsFails(ins: seq<RawIn>)
    ensures FoldIns(ins, Abort) == Abort
  {
    if ins != [] {
      FoldInsFails(ins[1..]);
    }
  }

  lemma {:induction false} FoldInsWire(ins: seq<RawIn>, acc: Bytes)
    requires forall k :: 0 <= k < |ins| ==> InTyped(ins[k])
    requires FoldIns(ins, Ok(acc)).Ok?
    ensures var b, wire := FoldIns(ins, Ok(acc)).value, EncodeAll(EncodeTxin, DecodeIns(ins));
      if ShortScripts(ins) then b == acc + wire else |b| < |acc| + |wire|
    decreases |ins|
  {
    hide EncodeTxin, DecodeIn;
    if ins != [] {
      var next := ConcatIn(ins[0], Ok(acc));
      if !next.Ok? {
        FoldInsFails(ins[1..]);
      }
      InWire(ins[0]);
      FoldInsWire(ins[1..], next.value);
      var ts := DecodeIns(ins);
      assert ts[1..] == DecodeIns(ins[1..]);
      assert ShortScripts(ins) <==> |ins[0].scriptSig| <= 252 && ShortScripts(ins[1..]) by {
        assert forall k :: 0 <= k < |ins| - 1 ==> ins[1..][k] == ins[k + 1];
        assert forall k :: 0 < k < |ins| ==> ins[k] == ins[1..][k - 1];
      }
      InGrows(ins[0], ins[1..], acc, next.value);
    }
  }

  /** Gluing one input in front of the rest, for the exact and for the shortened case. */
  lemma {:induction false} InGrows(r: RawIn, rest: seq<RawIn>, acc: Bytes, next: Bytes)
    requires InTyped(r) && |r.scriptSig| < 256
    requires next == acc + r.hash + r.index + ConcatVar(r.scriptSig).value + r.sequence
    ensures var wire, tail := EncodeTxin(DecodeIn(r)), EncodeAll(EncodeTxin, DecodeIns(rest));
      && (|r.scriptSig| <= 252 ==> next + tail == acc + (wire + tail))
      && (|r.scriptSig| > 252 ==> |next + tail| < |acc + (wire + tail)|)
      && |next + tail| <= |acc + (wire + tail)|
  {
    hide EncodeTxin, EncodeAll;
    InWire(r);
    var raw := r.hash + r.index + ConcatVar(r.scriptSig).value + r.sequence;
    assert next == acc + raw;
  }

  lemma OutWire(r: RawOut)
    requires OutTyped(r)
    ensures EncodeTxout(DecodeOut(r)) == r.value + ConcatVar(r.scriptPubKey).value
  {
    ToFromLE(r.value);
  }

  lemma {:induction false} FoldOutsFails(outs: seq<RawOut>)
    ensures FoldOuts(outs, Abort) == Abort
  {
    if outs != [] {
      FoldOutsFails(outs[1..]);
    }
  }

  lemma {:induction false} FoldOutsWire(outs: seq<RawOut>, acc: Bytes)
    requires forall k :: 0 <= k < |outs| ==> OutTyped(outs[k])
    requires FoldOuts(outs, Ok(acc)).Ok?
    ensures FoldOuts(outs, Ok(acc)).value == acc + EncodeAll(EncodeTxout, DecodeOuts(outs))
    decreases |outs|
  {
    hide EncodeTxout;
    if outs != [] {
      var next := ConcatOut(outs[0], Ok(acc));
      if !next.Ok? {
        FoldOutsFails(outs[1..]);
      }
      OutWire(outs[0]);
      FoldOutsWire(outs[1..], next.value);
      assert DecodeOuts(outs)[1..] == DecodeOuts(outs[1..]);
      var script, tail := ConcatVar(outs[0].scriptPubKey).value, EncodeAll(EncodeTxout, DecodeOuts(outs[1..]));
      assert acc + outs[0].value + script + tail == acc + ((outs[0].value + script) + tail);
    }
  }

  lemma ConcatTxWire(t: RawTx)
    requires RawTyped(t) && ConcatTx(t).Ok?
    ensures if ShortScripts(t.ins) then ConcatTx(t).value == PrintTx(Decode(t))
            else |ConcatTx(t).value| < |PrintTx(Decode(t))|
  {
    hide EncodeAll, FromLE, ToLE, FoldIns, FoldOuts, DecodeIns, DecodeOuts;
    FoldInsWire(t.ins, []);
    FoldOutsWire(t.outs, []);
    ToFromLE(t.version);
    ToFromLE(t.locktime);
    var ins, outs := ConcatIns(t.ins).value, ConcatOuts(t.outs).value;
    var wireIns := EncodeCounted(EncodeTxin, DecodeIns(t.ins));
    var wireOuts := EncodeCounted(EncodeTxout, DecodeOuts(t.outs));
    assert outs == wireOuts;
    assert t.version + wireIns + wireOuts + t.locktime == t.version + (wireIns + wireOuts) + t.locktime;
  }

  lemma DecodeFits(t: RawTx)
    requires RawTyped(t)
    ensures TxFits(Decode(t))
  {
    Pow256Values();
    FromLEBound(t.version);
    FromLEBound(t.locktime);
    forall k | 0 <= k < |t.ins| ensures TxinFits(DecodeIn(t.ins[k])) {
      FromLEBound(t.ins[k].index);
      FromLEBound(t.ins[k].sequence);
    }
    forall k | 0 <= k < |t.outs| ensures TxoutFits(DecodeOut(t.outs[k])) {
      FromLEBound(t.outs[k].value);
    }
  }

  /** Round trip, exactly: when the helper prints at all, parse-tx gives the fields back if and only if
      every scriptSig has at most 252 bytes. */
  lemma ConcatTxRoundTrip(t: RawTx)
    requires RawTyped(t) && ConcatTx(t).Ok?
    ensures ParseTx(ConcatTx(t).value) == Ok(Decode(t)) <==> ShortScripts(t.ins)
  {
    hide ParseTx, ConcatTx, PrintTx, Decode, OnlyMinimalVarints;
    ConcatTxWire(t);
    if ShortScripts(t.ins) {
      DecodeFits(t);
      ParseTxPrint(Decode(t));
    } else if ParseTx(ConcatTx(t).value) == Ok(Decode(t)) {
      ParseTxSound(ConcatTx(t).value, Decode(t));
    }
  }

  /** When the helper prints: with short scripts, exactly when the result fits 1024 bytes. */
  lemma ConcatTxPrints(t: RawTx)
    requires RawTyped(t) && ShortScripts(t.ins)
    ensures ConcatTx(t).Ok? <==> |PrintTx(Decode(t))| <= MAX_RAW_TX
  {
    hide EncodeAll, FromLE, ToLE, DecodeIns, DecodeOuts;
    if ConcatTx(t).Ok? {
      ConcatTxWire(t);
    } else if |PrintTx(Decode(t))| <= MAX_RAW_TX {
      FoldInsPrints(t.ins, []);
      FoldOutsPrints(t.outs, []);
      FoldInsWire(t.ins, []);
      FoldOutsWire(t.outs, []);
    }
  }

  lemma {:induction false} FoldInsPrints(ins: seq<RawIn>, acc: Bytes)
    requires ShortScripts(ins) && forall k :: 0 <= k < |ins| ==> InTyped(ins[k])
    requires |acc| + |EncodeAll(EncodeTxin, DecodeIns(ins))| <= MAX_RAW_TX
    ensures FoldIns(ins, Ok(acc)).Ok?
    decreases |ins|
  {
    hide EncodeTxin;
    if ins != [] {
      InWire(ins[0]);
      assert DecodeIns(ins)[1..] == DecodeIns(ins[1..]);
      FoldInsPrints(ins[1..], ConcatIn(ins[0], Ok(acc)).value);
    }
  }

  lemma {:induction false} FoldOutsPrints(outs: seq<RawOut>, acc: Bytes)
    requires forall k :: 0 <= k < |outs| ==> OutTyped(outs[k])
    requires |acc| + |EncodeAll(EncodeTxout, DecodeOuts(outs))| <= MAX_RAW_TX
    ensures FoldOuts(outs, Ok(acc)).Ok?
    decreases |outs|
  {
    hide EncodeTxout;
    if outs != [] {
      OutWire(outs[0]);
      assert DecodeOuts(outs)[1..] == DecodeOuts(outs[1..]);
      FoldOutsPrints(outs[1..], ConcatOut(outs[0], Ok(acc)).value);
    }
  }

  // ---------- the printed bytes, outright ----------

  function InBytes(r: RawIn): Bytes
    requires |r.scriptSig| < 256
  {
    r.hash + r.index + [|r.scriptSig| as Byte] + r.scriptSig + r.sequence
  }

  function OutBytes(r: RawOut): Bytes
    requires |r.scriptPubKey| < 256
  {
    r.value + [|r.scriptPubKey| as Byte] + r.scriptPubKey
  }

  function InsBytes(ins: seq<RawIn>): Bytes
    requires forall k :: 0 <= k < |ins| ==> |ins[k].scriptSig| < 256
  {
    if ins == [] then [] else InBytes(ins[0]) + InsBytes(ins[1..])
  }

  function OutsBytes(outs: seq<RawOut>): Bytes
    requires forall k :: 0 <= k < |outs| ==> |outs[k].scriptPubKey| < 256
  {
    if outs == [] then [] else OutBytes(outs[0]) + OutsBytes(outs[1..])
  }

  /** All fields one after the other, with one byte for each count and each script length. */
  function TxBytes(t: RawTx): Bytes
    requires RawTyped(t) && forall k :: 0 <= k < |t.ins| ==> |t.ins[k].scriptSig| < 256
  {
    t.version + [|t.ins| as Byte] + InsBytes(t.ins) + [|t.outs| as Byte] + OutsBytes(t.outs) + t.locktime
  }

  lemma {:induction false} FoldInsExact(ins: seq<RawIn>, acc: Bytes)
    requires |acc| <= 1024
    ensures FoldIns(ins, Ok(acc)) ==
      if (forall k :: 0 <= k < |ins| ==> |ins[k].scriptSig| < 256) && |acc + InsBytes(ins)| <= 1024
      then Ok(acc + InsBytes(ins)) else Abort
    decreases |ins|
  {
    if ins == [] {
      assert acc + [] == acc;
    } else {
      assert forall k :: 0 < k < |ins| ==> ins[k] == ins[1..][k - 1];
      var next := ConcatIn(ins[0], Ok(acc));
      if |ins[0].scriptSig| < 256 && |acc + InBytes(ins[0])| <= 1024 {
        assert next == Ok(acc + InBytes(ins[0])) by {
          assert acc + ins[0].hash + ins[0].index + ([|ins[0].scriptSig| as Byte] + ins[0].scriptSig) + ins[0].sequence
              == acc + InBytes(ins[0]);
        }
        FoldInsExact(ins[1..], acc + InBytes(ins[0]));
        if forall k :: 0 <= k < |ins| ==> |ins[k].scriptSig| < 256 {
          assert acc + InBytes(ins[0]) + InsBytes(ins[1..]) == acc + InsBytes(ins);
        }
      } else {
        FoldInsFails(ins[1..]);
      }
    }
  }

  lemma {:induction false} FoldOutsExact(outs: seq<RawOut>, acc: Bytes)
    requires |acc| <= 1024 && forall k :: 0 <= k < |outs| ==> |outs[k].scriptPubKey| < 256
    ensures FoldOuts(outs, Ok(acc)) == if |acc + OutsBytes(outs)| <= 1024 then Ok(acc + OutsBytes(outs)) else Abort
    decreases |outs|
  {
    if outs == [] {
      assert acc + [] == acc;
    } else {
      var next := ConcatOut(outs[0], Ok(acc));
      assert acc + outs[0].value + ([|outs[0].scriptPubKey| as Byte] + outs[0].scriptPubKey) == acc + OutBytes(outs[0]);
      assert acc + OutBytes(outs[0]) + OutsBytes(outs[1..]) == acc + OutsBytes(outs);
      if |acc + OutBytes(outs[0])| <= 1024 {
        FoldOutsExact(outs[1..], acc + OutBytes(outs[0]));
      } else {
        FoldOutsFails(outs[1..]);
      }
    }
  }

  /** The helper, both ways, for every script length: it prints exactly these bytes when no script is longer than 255
      bytes and they fit 1024, and panics otherwise. */
  lemma {:induction false} ConcatTxExact(t: RawTx)
    requires RawTyped(t)
    ensures ConcatTx(t) ==
      if (forall k :: 0 <= k < |t.ins| ==> |t.ins[k].scriptSig| < 256) && |TxBytes(t)| <= 1024
      then Ok(TxBytes(t)) else Abort
  {
    hide FoldIns, FoldOuts, InsBytes, OutsBytes;
    FoldInsExact(t.ins, []);
    FoldOutsExact(t.outs, []);
    assert [] + OutsBytes(t.outs) == OutsBytes(t.outs);
    if forall k :: 0 <= k < |t.ins| ==> |t.ins[k].scriptSig| < 256 {
      var ins, outs := InsBytes(t.ins), OutsBytes(t.outs);
      assert [] + ins == ins;
      assert t.version + ([|t.ins| as Byte] + ins) + ([|t.outs| as Byte] + outs) + t.locktime == TxBytes(t);
    }
  }

  /** Header round trip: little-endian numbers, reversed hashes. */
  lemma ConcatHeaderRoundTrip(h: RawHeader)
    requires |h.version| == |h.timestamp| == |h.nbits| == |h.nonce| == 4 && |h.parent| == |h.merkleRoot| == 32
    ensures ParseBlockHeader(ConcatHeader(h)) ==
      Ok(Header(FromLE(h.version), Reverse(h.parent), Reverse(h.merkleRoot), FromLE(h.timestamp),
                FromLE(h.nbits), FromLE(h.nonce)))
  {
    hide FromLE, FoldReverse;
    var b := ConcatHeader(h);
    assert b[0..4] == h.version && b[4..36] == h.parent && b[36..68] == h.merkleRoot;
    assert b[68..72] == h.timestamp && b[72..76] == h.nbits && b[76..80] == h.nonce;
    ReverseBuff32IsReverse(h.parent);
    ReverseBuff32IsReverse(h.merkleRoot);
  }
}
