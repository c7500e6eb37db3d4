/** Where each field stands in the bytes. */
module Layout {
  import opened Prelude
  import opened LittleEndian
  import opened Wire
  import opened CountedList
  import opened Transactions
  import opened Blocks

  lemma InputLayout(x: TxInput)
    ensures var e, m, n := InputBytes(x), |x.blockHash|, |x.inputHash|;
            && |e| == 12 + m + n
            && e[..4] == LE(m, 4) && e[4..4 + m] == x.blockHash
            && e[4 + m..8 + m] == LE(n, 4) && e[8 + m..8 + m + n] == x.inputHash
            && e[8 + m + n..] == LE(x.index, 4)
  {
    hide LE;
  }

  /** The amount takes 8 bytes when it is written; a decoder that takes 4 looks for this with `w == 4`. */
  lemma OutputLayout(x: TxOutput, w: CoinWidth)
    ensures var e, m := OutputBytes(x, w), |x.target|;
            && |e| == 8 + m + w
            && e[..4] == LE(m, 4) && e[4..4 + m] == x.target
            && e[4 + m..8 + m] == LE(x.index, 4) && e[8 + m..] == LE(x.coins, w)
  {
    hide LE;
  }

  /** The encoding of element `i` of a list stands behind those of the elements before it. */
  lemma {:induction false} ElementAt<T(!new)>(
    enc: T -> Bytes, f: T -> nat, xs: seq<T>, i: nat, s: Bytes, c: nat)
    requires i < |xs| && forall x :: |enc(x)| == f(x)
    requires At(s, c, Concat(enc, xs))
    ensures At(s, c + Sum(f, xs[..i]), enc(xs[i]))
  {
    hide At;
    var m := |xs| - 1;
    AtConcat(s, c, Concat(enc, xs[..m]), enc(xs[m]));
    if i == m {
      ConcatLength(enc, f, xs[..m]);
    } else {
      ElementAt(enc, f, xs[..m], i, s, c);
      assert xs[..m][..i] == xs[..i];
    }
  }

  /** A counted list is its count and then its elements. */
  lemma ListLayout<T(!new)>(enc: T -> Bytes, f: T -> nat, xs: seq<T>, s: Bytes, c: nat)
    requires forall x :: |enc(x)| == f(x)
    requires At(s, c, CountedBytes(enc, xs))
    ensures At(s, c, LE(|xs|, 4)) && |CountedBytes(enc, xs)| == 4 + Sum(f, xs)
    ensures forall i :: 0 <= i < |xs| ==> At(s, c + 4 + Sum(f, xs[..i]), enc(xs[i]))
  {
    hide At, LE;
    AtConcat(s, c, LE(|xs|, 4), Concat(enc, xs));
    ConcatLength(enc, f, xs);
    forall i | 0 <= i < |xs| ensures At(s, c + 4 + Sum(f, xs[..i]), enc(xs[i])) {
      ElementAt(enc, f, xs, i, s, c + 4);
    }
  }

  function OutputLengthAt(w: CoinWidth): TxOutput -> nat {
    (x: TxOutput) => OutputLength(x, w)
  }

  lemma HeaderLayout(t: Tx, s: Bytes, c: nat)
    requires At(s, c, HeaderBytes(t))
    ensures At(s, c, LE(t.version, 4)) && At(s, c + 4, LE(t.timestamp, 4))
    ensures At(s, c + 8, LE(|t.origin|, 4)) && At(s, c + 12, t.origin)
  {
    hide At, LE;
    AtConcat(s, c, LE(t.version, 4) + LE(t.timestamp, 4), StringBytes(t.origin));
    AtConcat(s, c, LE(t.version, 4), LE(t.timestamp, 4));
    AtConcat(s, c + 8, LE(|t.origin|, 4), t.origin);
  }

  lemma InputsLayout(t: Tx, s: Bytes, c: nat)
    requires At(s, c, InputsBytes(t))
    ensures At(s, c, LE(|t.inputs|, 4)) && |InputsBytes(t)| == 4 + Sum(InputLength, t.inputs)
    ensures forall i :: 0 <= i < |t.inputs| ==>
              At(s, c + 4 + Sum(InputLength, t.inputs[..i]), InputBytes(t.inputs[i]))
  {
    hide At, LE, InputBytes, CountedBytes, Sum;
    InputLengths();
    ListLayout(InputCodec().enc, InputLength, t.inputs, s, c);
  }

  lemma OutputsLayout(t: Tx, w: CoinWidth, s: Bytes, c: nat)
    requires At(s, c, OutputsBytes(t, w))
    ensures At(s, c, LE(|t.outputs|, 4)) && |OutputsBytes(t, w)| == 4 + Sum(OutputLengthAt(w), t.outputs)
    ensures forall i :: 0 <= i < |t.outputs| ==>
              At(s, c + 4 + Sum(OutputLengthAt(w), t.outputs[..i]), OutputBytes(t.outputs[i], w))
  {
    hide At, LE, OutputBytes, CountedBytes, Sum;
    OutputLengths(w);
    ListLayout(OutputCodec(w).enc, OutputLengthAt(w), t.outputs, s, c);
  }

  lemma InputLengths()
    ensures forall x :: |InputCodec().enc(x)| == InputLength(x)
  {
    hide LE;
  }

  lemma OutputLengths(w: CoinWidth)
    ensures forall x :: |OutputCodec(w).enc(x)| == OutputLengthAt(w)(x)
  {
    hide LE;
  }

  lemma TxLayout(t: Tx, w: CoinWidth, s: Bytes, c: nat)
    requires At(s, c, TxBytes(t, w))
    ensures At(s, c, LE(t.version, 4)) && At(s, c + 4, LE(t.timestamp, 4))
    ensures At(s, c + 8, LE(|t.origin|, 4)) && At(s, c + 12, t.origin)
    ensures var n := c + 12 + |t.origin|;
            && At(s, n, LE(|t.inputs|, 4))
            && forall i :: 0 <= i < |t.inputs| ==>
                 At(s, n + 4 + Sum(InputLength, t.inputs[..i]), InputBytes(t.inputs[i]))
    ensures var m := c + 16 + |t.origin| + Sum(InputLength, t.inputs);
            && At(s, m, LE(|t.outputs|, 4))
            && forall i :: 0 <= i < |t.outputs| ==>
                 At(s, m + 4 + Sum(OutputLengthAt(w), t.outputs[..i]), OutputBytes(t.outputs[i], w))
  {
    hide At, LE, HeaderBytes, InputsBytes, OutputsBytes, InputBytes, OutputBytes, Sum, OutputLengthAt;
    AtConcat(s, c, HeaderBytes(t) + InputsBytes(t), OutputsBytes(t, w));
    AtConcat(s, c, HeaderBytes(t), InputsBytes(t));
    HeaderLayout(t, s, c);
    InputsLayout(t, s, c + |HeaderBytes(t)|);
    OutputsLayout(t, w, s, c + |HeaderBytes(t)| + |InputsBytes(t)|);
  }

  lemma HeadLayout(b: BlockRecord)
    ensures var e, m, k := HeadBytes(b), |b.prevHash|, |b.coinbase.target|;
            && |e| == 37 + m + k
            && e[..8] == LE(b.index, 8) && e[8] == b.bitThresh
            && e[9..13] == LE(m, 4) && e[13..13 + m] == b.prevHash
            && e[13 + m..17 + m] == LE(b.nonce, 4) && e[17 + m..25 + m] == LE(b.timestamp, 8)
            && e[25 + m..29 + m] == LE(k, 4) && e[29 + m..29 + m + k] == b.coinbase.target
            && e[29 + m + k..] == LE(b.coinbase.coins, 8)
  {
    LEDigits(b.bitThresh);
    hide LE;
  }

  function TxLengthAt(w: CoinWidth): Tx -> nat {
    (t: Tx) => TxLength(t, w)
  }

  lemma TxLengths(w: CoinWidth)
    ensures forall t :: |TxEncoder(w)(t)| == TxLengthAt(w)(t)
  {
    hide TxBytes, TxLength;
    forall t: Tx ensures |TxBytes(t, w)| == TxLength(t, w) {
      TxLengthExact(t, w);
    }
  }

  lemma BlockLayout(b: BlockRecord, w: CoinWidth, s: Bytes)
    requires At(s, 0, BlockBytes(b, w))
    ensures At(s, 0, HeadBytes(b)) && At(s, |HeadBytes(b)|, LE(|b.tx|, 4))
    ensures forall i :: 0 <= i < |b.tx| ==>
              At(s, |HeadBytes(b)| + 4 + Sum(TxLengthAt(w), b.tx[..i]), TxBytes(b.tx[i], w))
  {
    hide At, LE, HeadBytes, TxBytes, TxLengthAt, CountedBytes, Sum;
    AtConcat(s, 0, HeadBytes(b), CountedBytes(TxEncoder(w), b.tx));
    TxLengths(w);
    ListLayout(TxEncoder(w), TxLengthAt(w), b.tx, s, |HeadBytes(b)|);
  }
}
