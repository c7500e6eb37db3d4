/**
 What the decoder as written returns. It takes 4 bytes of a coin amount that was written as 8
 (src/tx.cpp:76 and 107-108), so everything after an output is read 4 bytes early. Parsing at
 width 4 inverts the format at width 4; what remains is to say when the 4-byte and the 8-byte
 format of the same transactions agree as far as the decoder looks.
 */
module AsWritten {
  import opened Prelude
  import opened LittleEndian
  import opened Wire
  import opened CountedList
  import opened Transactions
  import opened Blocks

  // ---- one output ----

  lemma OutputSplit(x: TxOutput)
    ensures OutputBytes(x, WRITTEN) == OutputBytes(x, TAKEN) + LE(x.coins / TWO_TO_THE_32, 4)
  {
    LESplit(x.coins);
  }

  /** A decoded output has its coins modulo 2^32 and leaves the cursor 4 bytes before its end. */
  lemma OutputDeficit(s: Bytes, c: nat, x: TxOutput)
    requires OutputFits(x, WRITTEN) && At(s, c, OutputBytes(x, WRITTEN))
    ensures ParseOutput(s, c, TAKEN) ==
            Got(x.(coins := x.coins % TWO_TO_THE_32), c + |OutputBytes(x, WRITTEN)| - 4)
  {
    Widths();
    var low := x.(coins := x.coins % TWO_TO_THE_32);
    OutputSplit(x);
    AtConcat(s, c, OutputBytes(x, TAKEN), LE(x.coins / TWO_TO_THE_32, 4));
    LEWraps(low.coins, x.coins / TWO_TO_THE_32, 4);
    assert OutputBytes(x, TAKEN) == OutputBytes(low, TAKEN);
    OutputExact(s, c, low, TAKEN, c + |OutputBytes(low, TAKEN)|);
  }

  // ---- one transaction ----

  lemma ConcatFirst<T>(enc: T -> Bytes, xs: seq<T>)
    requires xs != []
    ensures Concat(enc, xs) == enc(xs[0]) + Concat(enc, xs[1..])
  {
    ConcatAppend(enc, xs[..1], xs[1..]);
    assert xs == xs[..1] + xs[1..];
    assert Concat(enc, xs[..1]) == Concat(enc, []) + enc(xs[0]);
  }

  /** A key's size field is never zero, so it cannot stand where the high bytes of a small amount stand. */
  lemma KeyIsNotZero(s: Bytes, c: nat, key: Key)
    requires |key| < TWO_TO_THE_32
    requires At(s, c, LE(|key|, 4))
    ensures !At(s, c, LE(0, 4))
  {
    Widths();
    if LE(|key|, 4) == LE(0, 4) {
      LEInjective(|key|, 0, 4);
    }
  }

  predicate SmallOutputs(xs: seq<TxOutput>) {
    CountedFits(OutputCodec(TAKEN).fits, xs)
  }

  lemma OutputsNarrow(xs: seq<TxOutput>, s: Bytes, c: nat)
    requires SmallOutputs(xs)
    requires At(s, c, Concat(OutputCodec(WRITTEN).enc, xs))
    ensures At(s, c, Concat(OutputCodec(TAKEN).enc, xs)) <==> |xs| <= 1
    ensures |xs| == 1 ==>
              |Concat(OutputCodec(WRITTEN).enc, xs)| == |Concat(OutputCodec(TAKEN).enc, xs)| + 4
              && At(s, c + |Concat(OutputCodec(TAKEN).enc, xs)|, LE(0, 4))
  {
    hide LE, StringBytes, At;
    var wide, narrow := OutputCodec(WRITTEN).enc, OutputCodec(TAKEN).enc;
    if xs != [] {
      Widths();
      var x := xs[0];
      assert OutputCodec(TAKEN).fits(x);
      ConcatFirst(wide, xs);
      ConcatFirst(narrow, xs);
      OutputSplit(x);
      var n, z := OutputBytes(x, TAKEN), LE(0, 4);
      assert x.coins / TWO_TO_THE_32 == 0;
      AtConcat(s, c, n + z, Concat(wide, xs[1..]));
      AtConcat(s, c, n, z);
      AtConcat(s, c, n, Concat(narrow, xs[1..]));
      AtEmpty(s, c, n);
      if |xs| >= 2 && At(s, c, Concat(narrow, xs)) {
        var y := xs[1];
        assert OutputCodec(TAKEN).fits(y);
        ConcatFirst(narrow, xs[1..]);
        KeySizeAt(s, c + |n|, y, Concat(narrow, xs[1..][1..]));
        KeyIsNotZero(s, c + |n|, y.target);
      }
    }
  }

  lemma KeySizeAt(s: Bytes, c: nat, y: TxOutput, rest: Bytes)
    requires At(s, c, OutputBytes(y, TAKEN) + rest)
    ensures At(s, c, LE(|y.target|, 4))
  {
    hide LE, At;
    var e := LE(|y.target|, 4);
    AtConcat(s, c, OutputBytes(y, TAKEN), rest);
    AtConcat(s, c, StringBytes(y.target) + LE(y.index, 4), LE(y.coins, TAKEN));
    AtConcat(s, c, StringBytes(y.target), LE(y.index, 4));
    AtConcat(s, c, e, y.target);
  }

  /** The two formats of a transaction agree as far as the decoder looks only up to one output. */
  lemma TxNarrow(t: Tx, s: Bytes, c: nat)
    requires TxFits(t, TAKEN)
    requires At(s, c, TxBytes(t, WRITTEN))
    ensures At(s, c, TxBytes(t, TAKEN)) <==> |t.outputs| <= 1
    ensures |t.outputs| == 0 ==> TxBytes(t, TAKEN) == TxBytes(t, WRITTEN)
    ensures |t.outputs| == 1 ==>
              |TxBytes(t, WRITTEN)| == |TxBytes(t, TAKEN)| + 4 && At(s, c + |TxBytes(t, TAKEN)|, LE(0, 4))
  {
    hide LE, At, HeaderBytes, InputsBytes, CountedFits, OutputCodec;
    var front, count := HeaderBytes(t) + InputsBytes(t), LE(|t.outputs|, 4);
    var wide := Concat(OutputCodec(WRITTEN).enc, t.outputs);
    var narrow := Concat(OutputCodec(TAKEN).enc, t.outputs);
    AtConcat(s, c, front, count + wide);
    AtConcat(s, c, front, count + narrow);
    AtConcat(s, c + |front|, count, wide);
    AtConcat(s, c + |front|, count, narrow);
    OutputsNarrow(t.outputs, s, c + |front| + |count|);
  }

  /** Decoding a serialized transaction as written returns it for exactly these transactions. */
  lemma TxAsWritten(t: Tx, suffix: Bytes, h: Bytes)
    ensures var r := ParseTx(TxBytes(t, WRITTEN) + suffix, 0, TAKEN, h);
            r.Got? && r.value.Wire() == t.Wire() <==> TxFits(t, TAKEN) && |t.outputs| <= 1
  {
    hide TxBytes, TxFits, ParseTx;
    var s := TxBytes(t, WRITTEN) + suffix;
    var r := ParseTx(s, 0, TAKEN, h);
    var u := t.(hash := h, sig := []);
    AtPrefix(TxBytes(t, WRITTEN), suffix);
    TxBytesWire(t, TAKEN);
    TxBytesWire(u, TAKEN);
    TxExact(s, 0, u, TAKEN, h, |TxBytes(u, TAKEN)|);
    if r.Got? {
      TxExact(s, 0, r.value, TAKEN, h, r.next);
    }
    if TxFits(t, TAKEN) {
      TxNarrow(t, s, 0);
    }
  }

  // ---- the transactions of a block ----

  /** No transaction but the last has an output, and the last has at most one. */
  predicate NarrowSafe(txs: seq<Tx>) {
    forall i :: 0 <= i < |txs| ==> |txs[i].outputs| <= (if i == |txs| - 1 then 1 else 0)
  }

  lemma HeaderFields(s: Bytes, c: nat, t: Tx, rest: Bytes)
    requires At(s, c, HeaderBytes(t) + rest)
    ensures At(s, c, LE(t.version, 4)) && At(s, c + 4, LE(t.timestamp, 4)) && At(s, c + 8, LE(|t.origin|, 4))
  {
    hide LE, At;
    var v, ts, size := LE(t.version, 4), LE(t.timestamp, 4), LE(|t.origin|, 4);
    AtConcat(s, c, HeaderBytes(t), rest);
    AtConcat(s, c, v + ts, StringBytes(t.origin));
    AtConcat(s, c, v, ts);
    AtConcat(s, c + 8, size, t.origin);
  }

  /** A header read 4 bytes early, over a zero word, forces version, timestamp and key size to zero. */
  lemma HeaderNotShifted(s: Bytes, c: nat, t: Tx, x: Bytes, y: Bytes)
    requires |t.origin| < TWO_TO_THE_32
    requires At(s, c, LE(0, 4)) && At(s, c + 4, HeaderBytes(t) + x)
    ensures !At(s, c, HeaderBytes(t) + y)
  {
    hide LE, At, HeaderBytes;
    if At(s, c, HeaderBytes(t) + y) {
      HeaderFields(s, c, t, y);
      HeaderFields(s, c + 4, t, x);
      AtUnique(s, c, LE(t.version, 4), LE(0, 4));
      AtUnique(s, c + 4, LE(t.timestamp, 4), LE(t.version, 4));
      KeyIsNotZero(s, c + 8, t.origin);
    }
  }

  lemma {:induction false} TxsNarrow(txs: seq<Tx>, s: Bytes, c: nat)
    requires forall i :: 0 <= i < |txs| ==> TxFits(txs[i], TAKEN)
    requires At(s, c, Concat(TxEncoder(WRITTEN), txs))
    ensures At(s, c, Concat(TxEncoder(TAKEN), txs)) <==> NarrowSafe(txs)
  {
    hide LE, At, TxBytes, TxFits;
    if txs != [] {
      var t, rest := txs[0], txs[1..];
      ConcatFirst(TxEncoder(WRITTEN), txs);
      ConcatFirst(TxEncoder(TAKEN), txs);
      var wide, narrow := Concat(TxEncoder(WRITTEN), rest), Concat(TxEncoder(TAKEN), rest);
      AtConcat(s, c, TxBytes(t, WRITTEN), wide);
      AtConcat(s, c, TxBytes(t, TAKEN), narrow);
      TxNarrow(t, s, c);
      if |t.outputs| == 0 {
        TxsNarrow(rest, s, c + |TxBytes(t, WRITTEN)|);
        assert forall i :: 0 <= i < |rest| ==> rest[i] == txs[i + 1];
        assert NarrowSafe(txs) ==> NarrowSafe(rest);
        assert NarrowSafe(rest) ==> NarrowSafe(txs) by {
          assert forall i :: 1 <= i < |txs| ==> txs[i] == rest[i - 1];
        }
      } else if rest == [] {
        assert narrow == [];
        AtEmpty(s, c, TxBytes(t, TAKEN));
      } else if |t.outputs| == 1 {
        SecondTxShifted(rest, s, c + |TxBytes(t, TAKEN)|);
        assert !NarrowSafe(txs);
      }
    }
  }

  lemma AtEmpty(s: Bytes, c: nat, e: Bytes)
    ensures At(s, c, e + []) <==> At(s, c, e)
  {
    assert e + [] == e;
  }

  lemma Regroup(a: Bytes, b: Bytes, c: Bytes, d: Bytes)
    ensures a + b + c + d == a + (b + c + d)
  {
  }

  /** With an output behind it, the next transaction is never read back. */
  lemma SecondTxShifted(rest: seq<Tx>, s: Bytes, c: nat)
    requires rest != [] && TxFits(rest[0], TAKEN)
    requires At(s, c, LE(0, 4)) && At(s, c + 4, Concat(TxEncoder(WRITTEN), rest))
    ensures !At(s, c, Concat(TxEncoder(TAKEN), rest))
  {
    hide LE, At, HeaderBytes, CountedFits, InputsBytes, OutputsBytes;
    var u := rest[0];
    ConcatFirst(TxEncoder(WRITTEN), rest);
    ConcatFirst(TxEncoder(TAKEN), rest);
    var x := InputsBytes(u) + OutputsBytes(u, WRITTEN) + Concat(TxEncoder(WRITTEN), rest[1..]);
    var y := InputsBytes(u) + OutputsBytes(u, TAKEN) + Concat(TxEncoder(TAKEN), rest[1..]);
    Regroup(HeaderBytes(u), InputsBytes(u), OutputsBytes(u, WRITTEN), Concat(TxEncoder(WRITTEN), rest[1..]));
    Regroup(HeaderBytes(u), InputsBytes(u), OutputsBytes(u, TAKEN), Concat(TxEncoder(TAKEN), rest[1..]));
    HeaderNotShifted(s, c, u, x, y);
  }

  /**
   Decoding a serialized block as written returns its wire fields for exactly these blocks:
   amounts below 2^32, no output before the last transaction, at most one in it.
   */
  lemma BlockAsWritten(b: BlockRecord, suffix: Bytes, h: Bytes)
    ensures var r := ParseBlock(BlockBytes(b, WRITTEN) + suffix, TAKEN, h);
            r.Got? && r.value.Wire() == b.Wire() <==> BlockFits(b, TAKEN) && NarrowSafe(b.tx)
  {
    hide LE, At, HeadBytes, BlockFits, ParseBlock, TxFits, NarrowSafe;
    var s := BlockBytes(b, WRITTEN) + suffix;
    var r := ParseBlock(s, TAKEN, h);
    AtPrefix(BlockBytes(b, WRITTEN), suffix);
    StampWire(b, h);
    WireDecides(b.Stamp(h), b, TAKEN, h);
    BlockExact(s, b.Stamp(h), TAKEN, h, |BlockBytes(b, TAKEN)|);
    if r.Got? {
      BlockExact(s, r.value, TAKEN, h, r.next);
      if r.value.Wire() == b.Wire() {
        WireDecides(r.value, b, TAKEN, h);
      }
    }
    if BlockFits(b, TAKEN) {
      BlockNarrow(b, s);
    }
  }

  lemma BlockNarrow(b: BlockRecord, s: Bytes)
    requires BlockFits(b, TAKEN)
    requires At(s, 0, BlockBytes(b, WRITTEN))
    ensures At(s, 0, BlockBytes(b, TAKEN)) <==> NarrowSafe(b.tx)
  {
    hide LE, At, HeadBytes, TxFits;
    var hd, count := HeadBytes(b), LE(|b.tx|, 4);
    var wide, narrow := Concat(TxEncoder(WRITTEN), b.tx), Concat(TxEncoder(TAKEN), b.tx);
    AtConcat(s, 0, hd, count + wide);
    AtConcat(s, 0, hd, count + narrow);
    AtConcat(s, |hd|, count, wide);
    AtConcat(s, |hd|, count, narrow);
    forall i | 0 <= i < |b.tx| ensures TxFits(b.tx[i], TAKEN) {
      assert ((t: Tx) => TxFits(t, TAKEN))(b.tx[i]);
    }
    TxsNarrow(b.tx, s, |hd| + |count|);
  }

  lemma FitsWider(b: BlockRecord)
    requires BlockFits(b, TAKEN)
    ensures BlockFits(b, WRITTEN)
  {
    Widths();
    forall i | 0 <= i < |b.tx| ensures TxFits(b.tx[i], WRITTEN) {
      var t := b.tx[i];
      assert ((t: Tx) => TxFits(t, TAKEN))(t);
      forall j | 0 <= j < |t.outputs| ensures OutputFits(t.outputs[j], WRITTEN) {
        assert OutputCodec(TAKEN).fits(t.outputs[j]);
      }
    }
  }

  /**
   The equality that src/jc.cpp:21 compares, between the bytes of a block and those of its decoded
   copy, holds as written for exactly these representable blocks.
   */
  lemma ReserializesAsWritten(b: BlockRecord, h: Bytes)
    requires BlockFits(b, WRITTEN)
    ensures var r := ParseBlock(BlockBytes(b, WRITTEN), TAKEN, h);
            r.Got? && BlockBytes(r.value, WRITTEN) == BlockBytes(b, WRITTEN) <==>
            BlockFits(b, TAKEN) && NarrowSafe(b.tx)
  {
    hide BlockBytes, BlockFits, ParseBlock, NarrowSafe;
    var s := BlockBytes(b, WRITTEN);
    var r := ParseBlock(s, TAKEN, h);
    assert s + [] == s;
    BlockAsWritten(b, [], h);
    if r.Got? {
      BlockCanonical(s, TAKEN, h);
      FitsWider(r.value);
      if BlockBytes(r.value, WRITTEN) == s {
        BlockFitsIsWritable(r.value);
        BlockFitsIsWritable(b);
        BlockPrefixFree(r.value, b, [], []);
      }
      if r.value.Wire() == b.Wire() {
        WireDecides(r.value, b, WRITTEN, h);
      }
    }
  }

  // ---- blocks and transactions that do not survive ----

  /** The second output is read where the first one's high coin bytes are, so its key has size 0. */
  lemma SecondOutputFails(xs: seq<TxOutput>, s: Bytes, c: nat)
    requires |xs| >= 2 && OutputFits(xs[0], WRITTEN) && xs[0].coins < TWO_TO_THE_32
    requires At(s, c, Concat(OutputCodec(WRITTEN).enc, xs))
    ensures ReadN(OutputCodec(TAKEN).dec, 2, s, c) == Fail(EmptyKey)
  {
    hide At, LE, ReadInt;
    var x, z := xs[0], LE(0, 4);
    ConcatFirst(OutputCodec(WRITTEN).enc, xs);
    AtConcat(s, c, OutputBytes(x, WRITTEN), Concat(OutputCodec(WRITTEN).enc, xs[1..]));
    OutputDeficit(s, c, x);
    OutputSplit(x);
    assert x.coins / TWO_TO_THE_32 == 0;
    AtConcat(s, c, OutputBytes(x, TAKEN), z);
    var c1 := c + |OutputBytes(x, TAKEN)|;
    EmptyKeyAt(s, c1);
    var dec := OutputCodec(TAKEN).dec;
    assert ReadN(dec, 0, s, c) == Got([], c);
    assert ReadN(dec, 1, s, c).Got? && ReadN(dec, 1, s, c).next == c1;
  }

  lemma EmptyKeyAt(s: Bytes, c: nat)
    requires At(s, c, LE(0, 4))
    ensures ReadKey(s, c) == Fail(EmptyKey)
  {
    Widths();
    ReadIntComplete(s, c, 0, 4);
    assert s[c + 4..c + 4] == [];
  }

  const COIN: TxOutput := TxOutput([1], 0, 1)
  const NO_OUTPUT: Tx := Tx(0, 0, [], [1], [], [], [])
  const ONE_OUTPUT: Tx := NO_OUTPUT.(outputs := [COIN])
  const TWO_OUTPUTS: Tx := NO_OUTPUT.(outputs := [COIN, COIN])

  /** Two outputs of one coin each: the transaction is representable, and decoding it fails. */
  lemma TwoOutputsFail(h: Bytes)
    ensures TxFits(TWO_OUTPUTS, WRITTEN)
    ensures ParseTx(TxBytes(TWO_OUTPUTS, WRITTEN), 0, TAKEN, h) == Fail(EmptyKey)
  {
    hide LE, At, HeaderBytes, InputCodec, OutputCodec, CountedFits, Sound, Complete, Concat, ReadN;
    var t := TWO_OUTPUTS;
    var s := TxBytes(t, WRITTEN);
    SmallFits();
    AtPrefix(s, []);
    assert s + [] == s;
    TxParts(s, 0, t);
    HeaderExact(s, 0, t);
    InputCodecExact(s);
    var c1 := |HeaderBytes(t)|;
    CountedComplete(InputCodec(), t.inputs, s, c1);
    var c2 := c1 + |InputsBytes(t)|;
    AtConcat(s, c2, LE(2, 4), Concat(OutputCodec(WRITTEN).enc, t.outputs));
    Widths();
    ReadIntComplete(s, c2, 2, 4);
    SecondOutputFails(t.outputs, s, c2 + 4);
  }

  lemma SmallFits()
    ensures TxFits(NO_OUTPUT, WRITTEN) && TxFits(ONE_OUTPUT, WRITTEN) && TxFits(TWO_OUTPUTS, WRITTEN)
    ensures OutputFits(COIN, WRITTEN)
  {
    Widths();
  }

  /** A block whose first transaction has an output. */
  const EARLY_OUTPUT: BlockRecord :=
    BlockRecord([ONE_OUTPUT, NO_OUTPUT], 0, 0, [], 0, 0, Coinbase(0, [1]))

  /** It is representable, and what decoding returns, if anything, is another block. */
  lemma EarlyOutputLost(h: Bytes)
    ensures BlockFits(EARLY_OUTPUT, WRITTEN)
    ensures var r := ParseBlock(BlockBytes(EARLY_OUTPUT, WRITTEN), TAKEN, h);
            r.Got? ==> r.value.Wire() != EARLY_OUTPUT.Wire()
  {
    hide BlockBytes, ParseBlock, TxFits;
    SmallFits();
    var b := EARLY_OUTPUT;
    BlockAsWritten(b, [], h);
    assert BlockBytes(b, WRITTEN) + [] == BlockBytes(b, WRITTEN);
    assert b.tx[0] == ONE_OUTPUT;
    assert !NarrowSafe(b.tx);
  }
}
