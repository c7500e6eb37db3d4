/** What can be sent and comes back, limit by limit and field by field. */
module RoundTrips {
  import opened Prelude
  import opened LittleEndian
  import opened Wire
  import opened CountedList
  import opened Transactions
  import opened Blocks

  // ---- which values are representable ----

  lemma TxFitsMeans(t: Tx, w: CoinWidth)
    ensures TxFits(t, w) <==>
            && |t.origin| < 0x1_0000_0000 && |t.inputs| < 0x8000_0000 && |t.outputs| < 0x8000_0000
            && (forall i :: 0 <= i < |t.inputs| ==>
                  |t.inputs[i].blockHash| < 0x1_0000_0000 && |t.inputs[i].inputHash| < 0x1_0000_0000)
            && (forall i :: 0 <= i < |t.outputs| ==>
                  |t.outputs[i].target| < 0x1_0000_0000 && (w == 4 ==> t.outputs[i].coins < 0x1_0000_0000))
  {
    Widths();
    forall i | 0 <= i < |t.inputs|
      ensures InputCodec().fits(t.inputs[i]) <==>
              |t.inputs[i].blockHash| < 0x1_0000_0000 && |t.inputs[i].inputHash| < 0x1_0000_0000
    {
    }
    forall i | 0 <= i < |t.outputs|
      ensures OutputCodec(w).fits(t.outputs[i]) <==>
              |t.outputs[i].target| < 0x1_0000_0000 && (w == 4 ==> t.outputs[i].coins < 0x1_0000_0000)
    {
    }
  }

  lemma BlockFitsMeans(b: BlockRecord, w: CoinWidth)
    ensures BlockFits(b, w) <==>
            && |b.prevHash| < 0x1_0000_0000 && |b.coinbase.target| < 0x1_0000_0000 && |b.tx| < 0x8000_0000
            && forall i :: 0 <= i < |b.tx| ==> TxFits(b.tx[i], w)
  {
    hide TxFits;
    forall i | 0 <= i < |b.tx| ensures ((t: Tx) => TxFits(t, w))(b.tx[i]) <==> TxFits(b.tx[i], w) {
    }
  }

  // ---- what comes back ----

  /**
   A transaction is read back whole from wherever it was written, for any lists below 2^31
   elements and any strings and keys below 2^32 bytes.
   */
  lemma TxComesBack(t: Tx, prefix: Bytes, suffix: Bytes, h: Bytes)
    requires |t.origin| < 0x1_0000_0000 && |t.inputs| < 0x8000_0000 && |t.outputs| < 0x8000_0000
    requires forall i :: 0 <= i < |t.inputs| ==>
               |t.inputs[i].blockHash| < 0x1_0000_0000 && |t.inputs[i].inputHash| < 0x1_0000_0000
    requires forall i :: 0 <= i < |t.outputs| ==> |t.outputs[i].target| < 0x1_0000_0000
    ensures ParseTx(prefix + TxBytes(t, 8) + suffix, |prefix|, 8, h) ==
            Got(Tx(t.version, t.timestamp, h, t.origin, [], t.inputs, t.outputs), |prefix| + |TxBytes(t, 8)|)
  {
    hide TxBytes, TxFits, ParseTx;
    var s, u := prefix + TxBytes(t, 8) + suffix, Tx(t.version, t.timestamp, h, t.origin, [], t.inputs, t.outputs);
    assert s[|prefix|..|prefix| + |TxBytes(t, 8)|] == TxBytes(t, 8);
    assert u.Wire() == t.Wire();
    TxBytesWire(t, 8);
    TxBytesWire(u, 8);
    TxFitsMeans(t, 8);
    TxExact(s, |prefix|, u, 8, h, |prefix| + |TxBytes(t, 8)|);
  }

  /** So is a block, with everything in it but the hashes and signatures of its transactions. */
  lemma BlockComesBack(b: BlockRecord, suffix: Bytes, h: Bytes)
    requires |b.prevHash| < 0x1_0000_0000 && |b.coinbase.target| < 0x1_0000_0000 && |b.tx| < 0x8000_0000
    requires forall t :: t in b.tx ==>
               && |t.origin| < 0x1_0000_0000 && |t.inputs| < 0x8000_0000 && |t.outputs| < 0x8000_0000
               && (forall i :: 0 <= i < |t.inputs| ==>
                     |t.inputs[i].blockHash| < 0x1_0000_0000 && |t.inputs[i].inputHash| < 0x1_0000_0000)
               && (forall i :: 0 <= i < |t.outputs| ==> |t.outputs[i].target| < 0x1_0000_0000)
    ensures var r := ParseBlock(BlockBytes(b, 8) + suffix, 8, h);
            && r.Got? && r.next == |BlockBytes(b, 8)|
            && r.value.index == b.index && r.value.bitThresh == b.bitThresh && r.value.prevHash == b.prevHash
            && r.value.nonce == b.nonce && r.value.timestamp == b.timestamp && r.value.coinbase == b.coinbase
            && |r.value.tx| == |b.tx|
            && forall i :: 0 <= i < |b.tx| ==>
                 var t := b.tx[i];
                 r.value.tx[i] == Tx(t.version, t.timestamp, h, t.origin, [], t.inputs, t.outputs)
  {
    hide BlockBytes, BlockFits, ParseBlock, TxFits;
    forall i | 0 <= i < |b.tx| ensures TxFits(b.tx[i], 8) {
      assert b.tx[i] in b.tx;
      TxFitsMeans(b.tx[i], 8);
    }
    BlockFitsMeans(b, 8);
    BlockRoundTrip(b, suffix, h);
  }

  // ---- what never comes back ----

  /** A count of 2^31 or more is refused, whatever follows it. */
  lemma CountRefused<T>(dec: (Bytes, nat) -> Read<T>, s: Bytes, c: nat, n: nat)
    requires 0x8000_0000 <= n < 0x1_0000_0000 && At(s, c, LE(n, 4))
    ensures ReadCounted(dec, s, c) == Fail(CountOverflow)
  {
    Widths();
    ReadIntComplete(s, c, n, 4);
  }

  lemma InputCountRefused(t: Tx, n: nat, s: Bytes, c: nat, w: CoinWidth, h: Bytes)
    requires |t.origin| < 0x1_0000_0000 && 0x8000_0000 <= n < 0x1_0000_0000
    requires At(s, c, HeaderBytes(t) + LE(n, 4))
    ensures ParseTx(s, c, w, h) == Fail(CountOverflow)
  {
    hide At, LE, ReadInt, ReadKey, HeaderBytes, ReadCounted, InputCodec, OutputCodec;
    AtConcat(s, c, HeaderBytes(t), LE(n, 4));
    HeaderExact(s, c, t);
    CountRefused(InputCodec().dec, s, c + |HeaderBytes(t)|, n);
  }

  lemma OutputCountRefused(t: Tx, n: nat, s: Bytes, c: nat, w: CoinWidth, h: Bytes)
    requires |t.origin| < 0x1_0000_0000 && |t.inputs| < 0x8000_0000 && 0x8000_0000 <= n < 0x1_0000_0000
    requires forall i :: 0 <= i < |t.inputs| ==>
               |t.inputs[i].blockHash| < 0x1_0000_0000 && |t.inputs[i].inputHash| < 0x1_0000_0000
    requires At(s, c, HeaderBytes(t) + InputsBytes(t) + LE(n, 4))
    ensures ParseTx(s, c, w, h) == Fail(CountOverflow)
  {
    TxFitsMeans(t.(outputs := []), w);
    hide At, LE, ReadInt, ReadKey, HeaderBytes, ReadCounted, CountedBytes, CountedFits, Complete;
    hide InputCodec, OutputCodec;
    AtConcat(s, c, HeaderBytes(t) + InputsBytes(t), LE(n, 4));
    AtConcat(s, c, HeaderBytes(t), InputsBytes(t));
    HeaderExact(s, c, t);
    InputCodecExact(s);
    CountedComplete(InputCodec(), t.inputs, s, c + |HeaderBytes(t)|);
    CountRefused(OutputCodec(w).dec, s, c + |HeaderBytes(t)| + |InputsBytes(t)|, n);
  }

  lemma TxCountRefused(b: BlockRecord, n: nat, s: Bytes, w: CoinWidth, h: Bytes)
    requires |b.prevHash| < 0x1_0000_0000 && |b.coinbase.target| < 0x1_0000_0000
    requires 0x8000_0000 <= n < 0x1_0000_0000
    requires At(s, 0, HeadBytes(b) + LE(n, 4))
    ensures ParseBlock(s, w, h) == Fail(CountOverflow)
  {
    hide At, LE, ParseHead, HeadBytes, ReadCounted, TxCodec;
    AtConcat(s, 0, HeadBytes(b), LE(n, 4));
    HeadExact(s, b, |HeadBytes(b)|);
    CountRefused(TxCodec(w, h).dec, s, |HeadBytes(b)|, n);
  }

  /** So is an empty sender key, before any list is looked at. */
  lemma EmptyOriginRefused(version: uint32, timestamp: uint32, s: Bytes, c: nat, w: CoinWidth, h: Bytes)
    requires At(s, c, LE(version, 4) + LE(timestamp, 4) + LE(0, 4))
    ensures ParseTx(s, c, w, h) == Fail(EmptyKey)
  {
    hide At, LE, ReadInt, ReadCounted, InputCodec, OutputCodec;
    Widths();
    AtConcat(s, c, LE(version, 4) + LE(timestamp, 4), LE(0, 4));
    AtConcat(s, c, LE(version, 4), LE(timestamp, 4));
    ReadIntComplete(s, c, version, 4);
    ReadIntComplete(s, c + 4, timestamp, 4);
    EmptyStringAt(s, c + 8);
  }

  lemma EmptyStringAt(s: Bytes, c: nat)
    requires At(s, c, LE(0, 4))
    ensures ReadString(s, c) == Got([], c + 4)
  {
    hide LE;
    assert LE(0, 4) + [] == LE(0, 4);
    ReadStringComplete(s, c, []);
  }

  /** And an empty coinbase key, after the list of transactions; here there are none. */
  lemma EmptyCoinbaseRefused(hd: Head, s: Bytes, w: CoinWidth, h: Bytes)
    requires |hd.prevHash| < 0x1_0000_0000
    requires At(s, 0, LE(hd.index, 8) + LE(hd.bitThresh, 1) + StringBytes(hd.prevHash)
                      + (LE(hd.nonce, 4) + LE(hd.timestamp, 8) + LE(0, 4) + LE(hd.coins, 8) + LE(0, 4)))
    ensures ParseBlock(s, w, h) == Fail(EmptyKey)
  {
    hide At, LE, StringBytes, ReadInt, ReadString, TxCodec;
    Widths();
    var e1, e2, e3 := LE(hd.index, 8), LE(hd.bitThresh, 1), StringBytes(hd.prevHash);
    var e4, e5, e6, e7 := LE(hd.nonce, 4), LE(hd.timestamp, 8), LE(0, 4), LE(hd.coins, 8);
    var c := 9 + |e3|;
    AtConcat(s, 0, e1 + e2 + e3, e4 + e5 + e6 + e7 + e6);
    AtConcat(s, 0, e1 + e2, e3);
    AtConcat(s, 0, e1, e2);
    AtConcat(s, c, e4 + e5 + e6 + e7, e6);
    AtConcat(s, c, e4 + e5 + e6, e7);
    AtConcat(s, c, e4 + e5, e6);
    AtConcat(s, c, e4, e5);
    ReadIntComplete(s, 0, hd.index, 8);
    ReadIntComplete(s, 8, hd.bitThresh, 1);
    ReadStringComplete(s, 9, hd.prevHash);
    ReadIntComplete(s, c, hd.nonce, 4);
    ReadIntComplete(s, c + 4, hd.timestamp, 8);
    EmptyStringAt(s, c + 12);
    ReadIntComplete(s, c + 16, hd.coins, 8);
    ReadIntComplete(s, c + 24, 0, 4);
  }
}
