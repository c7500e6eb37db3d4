/**
 Tx_Input, Tx_Output and Tx: their byte format, the parsers for it, and the loops that
 write and read them.

 Every format takes the width `w` of a coin amount. The serializer writes `WRITTEN` bytes
 (src/tx.cpp:76) and the decoder takes `TAKEN` (src/tx.cpp:107-108); the parser at a width
 is the exact inverse of the format at the same width.
 */
module Transactions {
  import opened Prelude
  import opened LittleEndian
  import opened Wire
  import opened CountedList

  type CoinWidth = w: nat | w == 4 || w == 8 witness 8
  const WRITTEN: CoinWidth := 8
  const TAKEN: CoinWidth := 4

  datatype TxInput = TxInput(blockHash: Bytes, inputHash: Bytes, index: uint32)

  datatype TxOutput = TxOutput(target: Key, index: uint32, coins: uint64)

  datatype Tx = Tx(
    version: uint32, timestamp: uint32, hash: Bytes, origin: Key, sig: Bytes,
    inputs: seq<TxInput>, outputs: seq<TxOutput>)
  {
    /** The fields that travel: `hash` and `sig` are not serialized. */
    function Wire(): Tx {
      this.(hash := [], sig := [])
    }
  }

  // ---- Tx_Input ----

  function InputBytes(x: TxInput): Bytes {
    StringBytes(x.blockHash) + StringBytes(x.inputHash) + LE(x.index, 4)
  }

  function ParseInput(s: Bytes, c: nat): Read<TxInput> {
    var (blockHash, c1) :- ReadString(s, c);
    var (inputHash, c2) :- ReadString(s, c1);
    var (index, c3) :- ReadUint32(s, c2);
    Got(TxInput(blockHash, inputHash, index), c3)
  }

  predicate InputFits(x: TxInput) {
    |x.blockHash| < TWO_TO_THE_32 && |x.inputHash| < TWO_TO_THE_32
  }

  function InputCodec(): Codec<TxInput> {
    Codec(InputBytes, ParseInput, InputFits)
  }

  lemma InputExact(s: Bytes, c: nat, x: TxInput, n: nat)
    ensures ParseInput(s, c) == Got(x, n) <==>
            InputFits(x) && At(s, c, InputBytes(x)) && n == c + |InputBytes(x)|
  {
    hide At, LE, ReadInt, ReadString, StringBytes;
    var bh, ih, ix := StringBytes(x.blockHash), StringBytes(x.inputHash), LE(x.index, 4);
    AtConcat(s, c, bh + ih, ix);
    AtConcat(s, c, bh, ih);
    if InputFits(x) && At(s, c, InputBytes(x)) {
      Widths();
      ReadStringComplete(s, c, x.blockHash);
      ReadStringComplete(s, c + |bh|, x.inputHash);
      ReadIntComplete(s, c + |bh| + |ih|, x.index, 4);
    }
  }

  lemma InputCodecExact(s: Bytes)
    ensures Sound(InputCodec(), s) && Complete(InputCodec(), s)
  {
    forall c: nat | ParseInput(s, c).Got? {
      InputExact(s, c, ParseInput(s, c).value, ParseInput(s, c).next);
    }
    forall x, c: nat | InputFits(x) && At(s, c, InputBytes(x)) {
      InputExact(s, c, x, c + |InputBytes(x)|);
    }
  }

  /** Reading back what was written returns the input exactly when both sizes fit their 32-bit fields. */
  lemma InputRoundTrip(x: TxInput, prefix: Bytes, suffix: Bytes)
    ensures ParseInput(prefix + InputBytes(x) + suffix, |prefix|) == Got(x, |prefix| + |InputBytes(x)|) <==>
            InputFits(x)
  {
    hide LE, InputBytes;
    var s := prefix + InputBytes(x) + suffix;
    assert s[|prefix|..|prefix| + |InputBytes(x)|] == InputBytes(x);
    InputExact(s, |prefix|, x, |prefix| + |InputBytes(x)|);
  }

  lemma {:induction false} LEZero(w: nat)
    ensures LE(0, w) == seq(w, _ => 0)
  {
    if w > 0 {
      LEFirst(0, w);
      LEZero(w - 1);
    }
  }

  /** A hash of 2^32 bytes writes a size of 0, and the encoding of another input is a prefix of this one. */
  lemma OversizedInputAliases()
    ensures var x, y := TxInput(seq(TWO_TO_THE_32, _ => 0), [], 0), TxInput([], [], 0);
            x != y && InputBytes(y) <= InputBytes(x)
  {
    hide LE;
    var n := TWO_TO_THE_32;
    var x, y := TxInput(seq(n, _ => 0), [], 0), TxInput([], [], 0);
    Widths();
    LEWraps(0, 1, 4);
    LEZero(4);
    assert |x.blockHash| == n && |y.blockHash| == 0;
    assert InputBytes(x) == seq(n + 12, _ => 0);
    assert InputBytes(y) == seq(12, _ => 0);
  }

  // ---- Tx_Output ----

  function OutputBytes(x: TxOutput, w: CoinWidth): Bytes {
    StringBytes(x.target) + LE(x.index, 4) + LE(x.coins, w)
  }

  /** The coin amount: `w` bytes, which a `uint64_t` can hold. */
  function ReadCoins(s: Bytes, c: nat, w: CoinWidth): (r: Read<uint64>)
    ensures r == ReadInt(s, c, w)
  {
    Widths();
    var (n, c1) :- ReadInt(s, c, w);
    Got(n, c1)
  }

  function ParseOutput(s: Bytes, c: nat, w: CoinWidth): Read<TxOutput> {
    var (target, c1) :- ReadKey(s, c);
    var (index, c2) :- ReadUint32(s, c1);
    var (coins, c3) :- ReadCoins(s, c2, w);
    Got(TxOutput(target, index, coins), c3)
  }

  predicate OutputFits(x: TxOutput, w: CoinWidth) {
    |x.target| < TWO_TO_THE_32 && x.coins < Pow256(w)
  }

  function OutputCodec(w: CoinWidth): Codec<TxOutput> {
    Codec(
      (x: TxOutput) => OutputBytes(x, w),
      (s: Bytes, c: nat) => ParseOutput(s, c, w),
      (x: TxOutput) => OutputFits(x, w))
  }

  lemma OutputExact(s: Bytes, c: nat, x: TxOutput, w: CoinWidth, n: nat)
    ensures ParseOutput(s, c, w) == Got(x, n) <==>
            OutputFits(x, w) && At(s, c, OutputBytes(x, w)) && n == c + |OutputBytes(x, w)|
  {
    hide At, LE, ReadInt, ReadString, StringBytes;
    var key, ix, co := StringBytes(x.target), LE(x.index, 4), LE(x.coins, w);
    AtConcat(s, c, key + ix, co);
    AtConcat(s, c, key, ix);
    if OutputFits(x, w) && At(s, c, OutputBytes(x, w)) {
      Widths();
      ReadStringComplete(s, c, x.target);
      ReadIntComplete(s, c + |key|, x.index, 4);
      ReadIntComplete(s, c + |key| + |ix|, x.coins, w);
    }
  }

  lemma OutputCodecExact(s: Bytes, w: CoinWidth)
    ensures Sound(OutputCodec(w), s) && Complete(OutputCodec(w), s)
  {
    forall c: nat | ParseOutput(s, c, w).Got? {
      OutputExact(s, c, ParseOutput(s, c, w).value, w, ParseOutput(s, c, w).next);
    }
    forall x, c: nat | OutputFits(x, w) && At(s, c, OutputBytes(x, w)) {
      OutputExact(s, c, x, w, c + |OutputBytes(x, w)|);
    }
  }

  // ---- Tx ----

  /** Version, timestamp and the sender's key. */
  function HeaderBytes(t: Tx): (e: Bytes)
    ensures |e| == 12 + |t.origin|
  {
    LE(t.version, 4) + LE(t.timestamp, 4) + StringBytes(t.origin)
  }

  function InputsBytes(t: Tx): Bytes {
    CountedBytes(InputCodec().enc, t.inputs)
  }

  function OutputsBytes(t: Tx, w: CoinWidth): Bytes {
    CountedBytes(OutputCodec(w).enc, t.outputs)
  }

  function TxBytes(t: Tx, w: CoinWidth): Bytes {
    HeaderBytes(t) + InputsBytes(t) + OutputsBytes(t, w)
  }

  /** `h` is the hash the decoder attaches: that of the whole string it was given. */
  function ParseTx(s: Bytes, c: nat, w: CoinWidth, h: Bytes): Read<Tx> {
    var (version, c1) :- ReadUint32(s, c);
    var (timestamp, c2) :- ReadUint32(s, c1);
    var (origin, c3) :- ReadKey(s, c2);
    var (inputs, c4) :- ReadCounted(InputCodec().dec, s, c3);
    var (outputs, c5) :- ReadCounted(OutputCodec(w).dec, s, c4);
    Got(Tx(version, timestamp, h, origin, [], inputs, outputs), c5)
  }

  predicate TxFits(t: Tx, w: CoinWidth) {
    && |t.origin| < TWO_TO_THE_32
    && CountedFits(InputCodec().fits, t.inputs)
    && CountedFits(OutputCodec(w).fits, t.outputs)
  }

  /** What a decoder that attaches the hash `h` can return. */
  predicate Decodable(t: Tx, w: CoinWidth, h: Bytes) {
    TxFits(t, w) && t.hash == h && t.sig == []
  }

  lemma HeaderExact(s: Bytes, c: nat, t: Tx)
    ensures At(s, c, HeaderBytes(t)) && |t.origin| < TWO_TO_THE_32 <==>
            && ReadUint32(s, c) == Got(t.version, c + 4)
            && ReadUint32(s, c + 4) == Got(t.timestamp, c + 8)
            && ReadKey(s, c + 8) == Got(t.origin, c + |HeaderBytes(t)|)
  {
    hide At, LE;
    var v, ts, key := LE(t.version, 4), LE(t.timestamp, 4), StringBytes(t.origin);
    AtConcat(s, c, v + ts, key);
    AtConcat(s, c, v, ts);
    if At(s, c, HeaderBytes(t)) && |t.origin| < TWO_TO_THE_32 {
      Widths();
      ReadIntComplete(s, c, t.version, 4);
      ReadIntComplete(s, c + 4, t.timestamp, 4);
      ReadStringComplete(s, c + 8, t.origin);
    }
  }

  /**
   Parsing a transaction at a cursor succeeds with `t` exactly when `t` is representable and
   its encoding stands there, whatever surrounds it.
   */
  lemma TxExact(s: Bytes, c: nat, t: Tx, w: CoinWidth, h: Bytes, n: nat)
    ensures ParseTx(s, c, w, h) == Got(t, n) <==>
            Decodable(t, w, h) && At(s, c, TxBytes(t, w)) && n == c + |TxBytes(t, w)|
  {
    hide At, LE, ReadInt, ReadKey, Pow256, HeaderBytes, CountedBytes, ReadCounted, Sound, Complete,
      CountedFits, InputCodec, OutputCodec;
    var hd, ins, outs := HeaderBytes(t), InputsBytes(t), OutputsBytes(t, w);
    AtConcat(s, c, hd + ins, outs);
    AtConcat(s, c, hd, ins);
    HeaderExact(s, c, t);
    InputCodecExact(s);
    OutputCodecExact(s, w);
    CountedSound(InputCodec(), s, c + |hd|);
    CountedSound(OutputCodec(w), s, c + |hd| + |ins|);
    if TxFits(t, w) && At(s, c, TxBytes(t, w)) {
      CountedComplete(InputCodec(), t.inputs, s, c + |hd|);
      CountedComplete(OutputCodec(w), t.outputs, s, c + |hd| + |ins|);
    }
  }

  function TxEncoder(w: CoinWidth): Tx -> Bytes {
    (t: Tx) => TxBytes(t, w)
  }

  function TxCodec(w: CoinWidth, h: Bytes): Codec<Tx> {
    Codec(
      TxEncoder(w),
      (s: Bytes, c: nat) => ParseTx(s, c, w, h),
      (t: Tx) => Decodable(t, w, h))
  }

  lemma TxCodecExact(s: Bytes, w: CoinWidth, h: Bytes)
    ensures Sound(TxCodec(w, h), s) && Complete(TxCodec(w, h), s)
  {
    forall c: nat | ParseTx(s, c, w, h).Got? {
      TxExact(s, c, ParseTx(s, c, w, h).value, w, h, ParseTx(s, c, w, h).next);
    }
    forall t, c: nat | Decodable(t, w, h) && At(s, c, TxBytes(t, w)) {
      TxExact(s, c, t, w, h, c + |TxBytes(t, w)|);
    }
  }

  lemma ParseTxErrors(s: Bytes, c: nat, w: CoinWidth, h: Bytes)
    ensures var r := ParseTx(s, c, w, h); r.Fail? ==> ReadError(r.error)
  {
    hide ReadCounted, InputCodec, OutputCodec, ReadErrorsOnly, At, LE;
    ElementErrors(w);
    var origin := ReadKey(s, c + 8);
    if origin.Got? {
      CountedErrors(InputCodec().dec, s, origin.next);
      var inputs := ReadCounted(InputCodec().dec, s, origin.next);
      if inputs.Got? {
        CountedErrors(OutputCodec(w).dec, s, inputs.next);
      }
    }
  }

  lemma TxErrors(w: CoinWidth, h: Bytes)
    ensures ReadErrorsOnly(TxCodec(w, h).dec)
  {
    hide ParseTx;
    forall s, c: nat ensures ParseTx(s, c, w, h).Fail? ==> ReadError(ParseTx(s, c, w, h).error) {
      ParseTxErrors(s, c, w, h);
    }
  }

  lemma ElementErrors(w: CoinWidth)
    ensures ReadErrorsOnly(InputCodec().dec) && ReadErrorsOnly(OutputCodec(w).dec)
  {
    hide At, LE, ReadInt, ReadString, Pow256, StringBytes;
  }

  // ---- closed-form lengths ----

  function InputLength(x: TxInput): nat {
    12 + |x.blockHash| + |x.inputHash|
  }

  function OutputLength(x: TxOutput, w: CoinWidth): nat {
    8 + |x.target| + w
  }

  function TxLength(t: Tx, w: CoinWidth): nat {
    20 + |t.origin| + Sum(InputLength, t.inputs) + Sum((x: TxOutput) => OutputLength(x, w), t.outputs)
  }

  lemma TxLengthExact(t: Tx, w: CoinWidth)
    ensures |TxBytes(t, w)| == TxLength(t, w)
  {
    ConcatLength(InputCodec().enc, InputLength, t.inputs);
    ConcatLength(OutputCodec(w).enc, (x: TxOutput) => OutputLength(x, w), t.outputs);
  }

  // ---- what the wire identifies ----

  /** The serializer never looks at `hash` and `sig`. */
  lemma TxBytesWire(t: Tx, w: CoinWidth)
    ensures TxBytes(t, w) == TxBytes(t.Wire(), w) && (TxFits(t, w) <==> TxFits(t.Wire(), w))
  {
  }

  /** Every size, count and amount fits the field it is written to. */
  predicate TxWritable(t: Tx) {
    && |t.origin| < TWO_TO_THE_32
    && CountWritable(InputCodec().fits, t.inputs)
    && CountWritable(OutputCodec(WRITTEN).fits, t.outputs)
  }

  lemma FitsIsWritable(t: Tx)
    requires TxFits(t, WRITTEN)
    ensures TxWritable(t)
  {
  }

  lemma TxUnique(s: Bytes, c: nat, t: Tx, u: Tx)
    requires TxWritable(t) && TxWritable(u)
    requires At(s, c, TxBytes(t, WRITTEN)) && At(s, c, TxBytes(u, WRITTEN))
    ensures t.Wire() == u.Wire()
  {
    hide At, LE, ReadInt, ReadKey, Pow256, HeaderBytes, CountedBytes, Unique, Complete, CountWritable;
    TxParts(s, c, t);
    TxParts(s, c, u);
    HeaderExact(s, c, t);
    HeaderExact(s, c, u);
    InputCodecExact(s);
    OutputCodecExact(s, WRITTEN);
    CompleteIsUnique(InputCodec(), s);
    CompleteIsUnique(OutputCodec(WRITTEN), s);
    var c1 := c + |HeaderBytes(t)|;
    CountedUnique(InputCodec().enc, InputCodec().fits, t.inputs, u.inputs, s, c1);
    CountedUnique(
      OutputCodec(WRITTEN).enc, OutputCodec(WRITTEN).fits, t.outputs, u.outputs, s, c1 + |InputsBytes(t)|);
  }

  lemma TxParts(s: Bytes, c: nat, t: Tx)
    requires At(s, c, TxBytes(t, WRITTEN))
    ensures At(s, c, HeaderBytes(t)) && At(s, c + |HeaderBytes(t)|, InputsBytes(t))
    ensures At(s, c + |HeaderBytes(t)| + |InputsBytes(t)|, OutputsBytes(t, WRITTEN))
  {
    hide At, HeaderBytes, InputsBytes, OutputsBytes;
    AtConcat(s, c, HeaderBytes(t) + InputsBytes(t), OutputsBytes(t, WRITTEN));
    AtConcat(s, c, HeaderBytes(t), InputsBytes(t));
  }

  /** Serialization as written is injective and prefix-free wherever every value fits its field. */
  lemma TxPrefixFree(t: Tx, u: Tx, x: Bytes, y: Bytes)
    requires TxWritable(t) && TxWritable(u)
    requires TxBytes(t, WRITTEN) + x == TxBytes(u, WRITTEN) + y
    ensures t.Wire() == u.Wire() && x == y
  {
    hide TxBytes, TxWritable;
    var s := TxBytes(t, WRITTEN) + x;
    AtPrefix(TxBytes(t, WRITTEN), x);
    AtPrefix(TxBytes(u, WRITTEN), y);
    TxUnique(s, 0, t, u);
    TxBytesWire(t, WRITTEN);
    TxBytesWire(u, WRITTEN);
    assert x == s[|TxBytes(t, WRITTEN)|..] == y;
  }

  // ---- the code ----

  method SerializeInput(x: TxInput) returns (serial: Bytes)
    ensures serial == InputBytes(x)
  {
    hide LE;
    var s := new StringStream();
    s.WriteInt(|x.blockHash|, 4);
    s.WriteBytes(x.blockHash);
    s.WriteInt(|x.inputHash|, 4);
    s.WriteBytes(x.inputHash);
    s.WriteInt(x.index, 4);
    return s.data;
  }

  method DecodeInput(serial: Bytes, cr: Cursor?) returns (r: Result<TxInput>)
    modifies cr
    ensures r == ParseInput(serial, old(Start(cr))).Result()
    ensures cr != null && r.Ok? ==> cr.pos == ParseInput(serial, old(Start(cr))).next
  {
    hide LE, At, ReadInt, ReadString, Pow256;
    var cursor := cr;
    if cr == null {
      cursor := new Cursor(0);
    }
    var blockHash :- TakeString(serial, cursor);
    var inputHash :- TakeString(serial, cursor);
    var index :- TakeUint32(serial, cursor);
    return Ok(TxInput(blockHash, inputHash, index));
  }

  method SerializeOutput(x: TxOutput) returns (serial: Bytes)
    ensures serial == OutputBytes(x, WRITTEN)
  {
    hide LE;
    var s := new StringStream();
    s.WriteInt(|x.target|, 4);
    s.WriteBytes(x.target);
    s.WriteInt(x.index, 4);
    s.WriteInt(x.coins, WRITTEN);
    return s.data;
  }

  /** With `w == TAKEN` this is the decoder as written; `w == WRITTEN` is the one it means to be. */
  method DecodeOutput(serial: Bytes, cr: Cursor?, w: CoinWidth) returns (r: Result<TxOutput>)
    modifies cr
    ensures r == ParseOutput(serial, old(Start(cr)), w).Result()
    ensures cr != null && r.Ok? ==> cr.pos == ParseOutput(serial, old(Start(cr)), w).next
  {
    hide LE, At, ReadInt, ReadString, Pow256;
    var cursor := cr;
    if cr == null {
      cursor := new Cursor(0);
    }
    var target :- TakeString(serial, cursor);
    if target == [] {
      return Err(EmptyKey);
    }
    var index :- TakeUint32(serial, cursor);
    var coins :- ReadCoins(serial, cursor.pos, w).Result();
    cursor.pos := cursor.pos + w;
    return Ok(TxOutput(target, index, coins));
  }

  method SerializeTx(t: Tx) returns (serial: Bytes)
    ensures serial == TxBytes(t, WRITTEN)
  {
    hide LE;
    var s := new StringStream();
    s.WriteInt(t.version, 4);
    s.WriteInt(t.timestamp, 4);
    s.WriteInt(|t.origin|, 4);
    s.WriteBytes(t.origin);
    assert s.data == HeaderBytes(t);
    WriteInputs(s, t.inputs);
    WriteOutputs(s, t.outputs);
    return s.data;
  }

  method WriteInputs(s: StringStream, inputs: seq<TxInput>)
    modifies s
    ensures s.data == old(s.data) + CountedBytes(InputCodec().enc, inputs)
  {
    hide LE;
    s.WriteInt(|inputs|, 4);
    for i := 0 to |inputs|
      invariant s.data == old(s.data) + (LE(|inputs|, 4) + Concat(InputCodec().enc, inputs[..i]))
    {
      var input := SerializeInput(inputs[i]);
      s.WriteBytes(input);
      ConcatSnoc(InputCodec().enc, inputs, i);
    }
    assert inputs[..|inputs|] == inputs;
  }

  method WriteOutputs(s: StringStream, outputs: seq<TxOutput>)
    modifies s
    ensures s.data == old(s.data) + CountedBytes(OutputCodec(WRITTEN).enc, outputs)
  {
    hide LE;
    s.WriteInt(|outputs|, 4);
    for i := 0 to |outputs|
      invariant s.data == old(s.data) + (LE(|outputs|, 4) + Concat(OutputCodec(WRITTEN).enc, outputs[..i]))
    {
      var output := SerializeOutput(outputs[i]);
      s.WriteBytes(output);
      ConcatSnoc(OutputCodec(WRITTEN).enc, outputs, i);
    }
    assert outputs[..|outputs|] == outputs;
  }

  method DecodeTx(serial: Bytes, cr: Cursor?, w: CoinWidth, sha: Bytes -> Digest) returns (r: Result<Tx>)
    modifies cr
    ensures r == ParseTx(serial, old(Start(cr)), w, sha(serial)).Result()
    ensures cr != null && r.Ok? ==> cr.pos == ParseTx(serial, old(Start(cr)), w, sha(serial)).next
  {
    hide LE, At, ReadInt, ReadCounted, InputCodec, OutputCodec, StringBytes;
    var cursor := cr;
    if cr == null {
      cursor := new Cursor(0);
    }
    var version :- ReadUint32(serial, cursor.pos).Result();
    var timestamp :- ReadUint32(serial, cursor.pos + 4).Result();
    var keySize :- ReadUint32(serial, cursor.pos + 8).Result();
    cursor.pos := cursor.pos + 12;
    var origin :- TakeBytes(serial, cursor, keySize);
    if origin == [] {
      return Err(EmptyKey);
    }
    var inputs :- DecodeInputs(serial, cursor);
    var outputs :- DecodeOutputs(serial, cursor, w);
    return Ok(Tx(version, timestamp, sha(serial), origin, [], inputs, outputs));
  }

  method DecodeInputs(serial: Bytes, cr: Cursor) returns (r: Result<seq<TxInput>>)
    modifies cr
    ensures r == ReadCounted(InputCodec().dec, serial, old(cr.pos)).Result()
    ensures r.Ok? ==> cr.pos == ReadCounted(InputCodec().dec, serial, old(cr.pos)).next
  {
    hide LE, ParseInput;
    ghost var dec := InputCodec().dec;
    var size :- TakeUint32(serial, cr);
    if size >= TWO_TO_THE_31 {
      return Err(CountOverflow);
    }
    ghost var first := cr.pos;
    var inputs := [];
    for i := 0 to size
      invariant ReadN(dec, i, serial, first) == Got(inputs, cr.pos)
    {
      var input := DecodeInput(serial, cr);
      if input.Err? {
        ReadNFails(dec, i + 1, size, serial, first);
        return Err(input.error);
      }
      inputs := inputs + [input.value];
    }
    return Ok(inputs);
  }

  method DecodeOutputs(serial: Bytes, cr: Cursor, w: CoinWidth) returns (r: Result<seq<TxOutput>>)
    modifies cr
    ensures r == ReadCounted(OutputCodec(w).dec, serial, old(cr.pos)).Result()
    ensures r.Ok? ==> cr.pos == ReadCounted(OutputCodec(w).dec, serial, old(cr.pos)).next
  {
    hide LE, ParseOutput;
    ghost var dec := OutputCodec(w).dec;
    var size :- TakeUint32(serial, cr);
    if size >= TWO_TO_THE_31 {
      return Err(CountOverflow);
    }
    ghost var first := cr.pos;
    var outputs := [];
    for i := 0 to size
      invariant ReadN(dec, i, serial, first) == Got(outputs, cr.pos)
    {
      var output := DecodeOutput(serial, cr, w);
      if output.Err? {
        ReadNFails(dec, i + 1, size, serial, first);
        return Err(output.error);
      }
      outputs := outputs + [output.value];
    }
    return Ok(outputs);
  }
}
