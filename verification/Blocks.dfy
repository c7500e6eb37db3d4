/** Block: its byte format, the parser for it, and the object that is hashed, mined and decoded. */
module Blocks {
  import opened Prelude
  import opened LittleEndian
  import opened Wire
  import opened CountedList
  import opened Transactions

  datatype Coinbase = Coinbase(coins: uint64, target: Key)

  /** What a block says on the wire; `hash` and `solved` are not part of it. */
  datatype BlockRecord = BlockRecord(
    tx: seq<Tx>, index: uint64, bitThresh: uint8, prevHash: Bytes, timestamp: uint64, nonce: uint32,
    coinbase: Coinbase)
  {
    function Wire(): BlockRecord {
      this.(tx := seq(|tx|, i requires 0 <= i < |tx| => tx[i].Wire()))
    }

    /** The same block as a decoder returns it: every transaction carries the hash `h` and no signature. */
    function Stamp(h: Bytes): BlockRecord {
      this.(tx := seq(|tx|, i requires 0 <= i < |tx| => tx[i].(hash := h, sig := [])))
    }
  }

  function HeadBytes(b: BlockRecord): Bytes {
    LE(b.index, 8) + LE(b.bitThresh, 1) + StringBytes(b.prevHash) + LE(b.nonce, 4) + LE(b.timestamp, 8)
    + StringBytes(b.coinbase.target) + LE(b.coinbase.coins, 8)
  }

  function BlockBytes(b: BlockRecord, w: CoinWidth): Bytes {
    HeadBytes(b) + CountedBytes(TxEncoder(w), b.tx)
  }

  datatype Head = Head(
    index: uint64, bitThresh: uint8, prevHash: Bytes, nonce: uint32, timestamp: uint64, key: Bytes, coins: uint64)

  function ParseHead(s: Bytes): Read<Head> {
    var (index, c1) :- ReadUint64(s, 0);
    var (bitThresh, c2) :- ReadUint8(s, c1);
    var (prevHash, c3) :- ReadString(s, c2);
    var (nonce, c4) :- ReadUint32(s, c3);
    var (timestamp, c5) :- ReadUint64(s, c4);
    var (key, c6) :- ReadString(s, c5);
    var (coins, c7) :- ReadUint64(s, c6);
    Got(Head(index, bitThresh, prevHash, nonce, timestamp, key, coins), c7)
  }

  /** The coinbase key is decoded last, after the transactions. */
  function ParseBlock(s: Bytes, w: CoinWidth, h: Bytes): Read<BlockRecord> {
    var (hd, c1) :- ParseHead(s);
    var (tx, c2) :- ReadCounted(TxCodec(w, h).dec, s, c1);
    if hd.key == [] then Fail(EmptyKey) else
    Got(BlockRecord(tx, hd.index, hd.bitThresh, hd.prevHash, hd.timestamp, hd.nonce, Coinbase(hd.coins, hd.key)), c2)
  }

  predicate HeadFits(b: BlockRecord) {
    |b.prevHash| < TWO_TO_THE_32 && |b.coinbase.target| < TWO_TO_THE_32
  }

  predicate BlockFits(b: BlockRecord, w: CoinWidth) {
    HeadFits(b) && CountedFits((t: Tx) => TxFits(t, w), b.tx)
  }

  function HeadOf(b: BlockRecord): Head {
    Head(b.index, b.bitThresh, b.prevHash, b.nonce, b.timestamp, b.coinbase.target, b.coinbase.coins)
  }

  lemma HeadExact(s: Bytes, b: BlockRecord, n: nat)
    ensures ParseHead(s) == Got(HeadOf(b), n) <==>
            HeadFits(b) && At(s, 0, HeadBytes(b)) && n == |HeadBytes(b)|
  {
    hide At, LE, StringBytes, ReadInt, ReadString, Pow256;
    var e1, e2, e3 := LE(b.index, 8), LE(b.bitThresh, 1), StringBytes(b.prevHash);
    var e4, e5, e6 := LE(b.nonce, 4), LE(b.timestamp, 8), StringBytes(b.coinbase.target);
    var e7 := LE(b.coinbase.coins, 8);
    AtConcat(s, 0, e1 + e2 + e3 + e4 + e5 + e6, e7);
    AtConcat(s, 0, e1 + e2 + e3 + e4 + e5, e6);
    AtConcat(s, 0, e1 + e2 + e3 + e4, e5);
    AtConcat(s, 0, e1 + e2 + e3, e4);
    AtConcat(s, 0, e1 + e2, e3);
    AtConcat(s, 0, e1, e2);
    if HeadFits(b) && At(s, 0, HeadBytes(b)) {
      Widths();
      var c3 := 9 + |e3|;
      ReadIntComplete(s, 0, b.index, 8);
      ReadIntComplete(s, 8, b.bitThresh, 1);
      ReadStringComplete(s, 9, b.prevHash);
      ReadIntComplete(s, c3, b.nonce, 4);
      ReadIntComplete(s, c3 + 4, b.timestamp, 8);
      ReadStringComplete(s, c3 + 12, b.coinbase.target);
      ReadIntComplete(s, c3 + 12 + |e6|, b.coinbase.coins, 8);
    }
  }

  /**
   Parsing a block succeeds with `b` exactly when `b` is representable, every transaction
   carries the hash of the string, and the string starts with the encoding of `b`.
   */
  lemma BlockExact(s: Bytes, b: BlockRecord, w: CoinWidth, h: Bytes, n: nat)
    ensures ParseBlock(s, w, h) == Got(b, n) <==>
            && BlockFits(b, w) && b == b.Stamp(h)
            && At(s, 0, BlockBytes(b, w)) && n == |BlockBytes(b, w)|
  {
    hide At, LE, HeadBytes, ParseHead, CountedBytes, ReadCounted, Sound, Complete, CountedFits, TxCodec, TxFits;
    var c1 := |HeadBytes(b)|;
    AtConcat(s, 0, HeadBytes(b), CountedBytes(TxEncoder(w), b.tx));
    HeadExact(s, b, c1);
    HeadNext(s, b);
    TxCodecExact(s, w, h);
    StampedFits(b, w, h);
    CountedSound(TxCodec(w, h), s, c1);
    if CountedFits(TxCodec(w, h).fits, b.tx) && At(s, c1, CountedBytes(TxEncoder(w), b.tx)) {
      CountedComplete(TxCodec(w, h), b.tx, s, c1);
    }
  }

  lemma HeadNext(s: Bytes, b: BlockRecord)
    ensures ParseHead(s).Got? && ParseHead(s).value == HeadOf(b) ==> ParseHead(s).next == |HeadBytes(b)|
  {
    if ParseHead(s).Got? {
      HeadExact(s, b, ParseHead(s).next);
    }
  }

  lemma StampedFits(b: BlockRecord, w: CoinWidth, h: Bytes)
    ensures TxCodec(w, h).enc == TxEncoder(w)
    ensures CountedFits(TxCodec(w, h).fits, b.tx) <==>
            CountedFits((t: Tx) => TxFits(t, w), b.tx) && b == b.Stamp(h)
  {
    hide TxFits;
    var fits := TxCodec(w, h).fits;
    if CountedFits(fits, b.tx) {
      forall i | 0 <= i < |b.tx| ensures TxFits(b.tx[i], w) && b.tx[i].hash == h && b.tx[i].sig == [] {
        assert fits(b.tx[i]);
      }
      assert b.tx == b.Stamp(h).tx;
    }
    if b == b.Stamp(h) {
      forall i | 0 <= i < |b.tx| ensures b.tx[i].hash == h && b.tx[i].sig == [] {
        assert b.tx[i] == b.Stamp(h).tx[i];
      }
    }
  }

  // ---- what the wire identifies ----

  /** Blocks that agree on the wire fields have the same bytes and the same decoded form. */
  lemma WireDecides(a: BlockRecord, b: BlockRecord, w: CoinWidth, h: Bytes)
    requires a.Wire() == b.Wire()
    ensures BlockBytes(a, w) == BlockBytes(b, w)
    ensures BlockFits(a, w) <==> BlockFits(b, w)
    ensures a.Stamp(h) == b.Stamp(h)
  {
    hide LE, StringBytes, TxBytes, TxFits;
    assert |a.tx| == |a.Wire().tx| == |b.tx|;
    forall i | 0 <= i < |a.tx|
      ensures TxBytes(a.tx[i], w) == TxBytes(b.tx[i], w)
      ensures TxFits(a.tx[i], w) <==> TxFits(b.tx[i], w)
      ensures a.tx[i].(hash := h, sig := []) == b.tx[i].(hash := h, sig := [])
    {
      assert a.tx[i].Wire() == a.Wire().tx[i] == b.tx[i].Wire();
      TxBytesWire(a.tx[i], w);
      TxBytesWire(b.tx[i], w);
    }
    ConcatCongruent(TxEncoder(w), a.tx, b.tx);
    assert a.Stamp(h).tx == b.Stamp(h).tx;
  }

  lemma StampWire(b: BlockRecord, h: Bytes)
    ensures b.Stamp(h).Wire() == b.Wire()
  {
    assert b.Stamp(h).Wire().tx == b.Wire().tx;
  }

  // ---- the round trip and its consequences ----

  /**
   Decoding what the serializer wrote, with anything behind it, returns every wire field and
   stops at the end of the record -- for exactly the representable blocks.
   */
  lemma BlockRoundTrip(b: BlockRecord, suffix: Bytes, h: Bytes)
    ensures ParseBlock(BlockBytes(b, WRITTEN) + suffix, WRITTEN, h) == Got(b.Stamp(h), |BlockBytes(b, WRITTEN)|) <==>
            BlockFits(b, WRITTEN)
  {
    hide BlockBytes, BlockFits, ParseBlock;
    StampWire(b, h);
    WireDecides(b.Stamp(h), b, WRITTEN, h);
    AtPrefix(BlockBytes(b, WRITTEN), suffix);
    BlockExact(BlockBytes(b, WRITTEN) + suffix, b.Stamp(h), WRITTEN, h, |BlockBytes(b, WRITTEN)|);
  }

  /** Whatever is decoded re-serializes to exactly the bytes that were read. */
  lemma BlockCanonical(s: Bytes, w: CoinWidth, h: Bytes)
    ensures var r := ParseBlock(s, w, h);
            r.Got? ==>
              && r.next <= |s| && s[..r.next] == BlockBytes(r.value, w)
              && BlockFits(r.value, w) && r.value == r.value.Stamp(h)
  {
    hide BlockBytes, BlockFits, ParseBlock;
    var r := ParseBlock(s, w, h);
    if r.Got? {
      BlockExact(s, r.value, w, h, r.next);
    }
  }

  /** Every size, count and amount fits the field it is written to. */
  predicate BlockWritable(b: BlockRecord) {
    HeadFits(b) && CountWritable(TxWritable, b.tx)
  }

  lemma BlockFitsIsWritable(b: BlockRecord)
    requires BlockFits(b, WRITTEN)
    ensures BlockWritable(b)
  {
    hide TxFits, TxWritable;
    forall i | 0 <= i < |b.tx| ensures TxWritable(b.tx[i]) {
      assert ((t: Tx) => TxFits(t, WRITTEN))(b.tx[i]);
      FitsIsWritable(b.tx[i]);
    }
  }

  /** A transaction without the fields that do not travel. */
  predicate Bare(t: Tx) {
    TxWritable(t) && t == t.Wire()
  }

  lemma BareUnique(s: Bytes)
    ensures Unique(TxEncoder(WRITTEN), Bare, s)
  {
    hide At, TxBytes, TxWritable;
    forall t, u, c: nat | Bare(t) && Bare(u) && At(s, c, TxBytes(t, WRITTEN)) && At(s, c, TxBytes(u, WRITTEN))
      ensures t == u
    {
      TxUnique(s, c, t, u);
    }
  }

  lemma WireIsBare(b: BlockRecord)
    requires BlockWritable(b)
    ensures b.Wire().Wire() == b.Wire() && HeadFits(b.Wire()) && CountWritable(Bare, b.Wire().tx)
  {
    assert b.Wire().Wire().tx == b.Wire().tx;
  }

  /** Serialization as written is injective and prefix-free wherever every value fits its field. */
  lemma BlockPrefixFree(a: BlockRecord, b: BlockRecord, x: Bytes, y: Bytes)
    requires BlockWritable(a) && BlockWritable(b)
    requires BlockBytes(a, WRITTEN) + x == BlockBytes(b, WRITTEN) + y
    ensures a.Wire() == b.Wire() && x == y
  {
    hide BlockBytes, BlockWritable, CountWritable;
    var s := BlockBytes(a, WRITTEN) + x;
    AtPrefix(BlockBytes(a, WRITTEN), x);
    AtPrefix(BlockBytes(b, WRITTEN), y);
    WireIsBare(a);
    WireIsBare(b);
    WireDecides(a.Wire(), a, WRITTEN, []);
    WireDecides(b.Wire(), b, WRITTEN, []);
    BareBlockUnique(s, a.Wire(), b.Wire());
    assert x == s[|BlockBytes(a, WRITTEN)|..] == y;
  }

  lemma BareBlockUnique(s: Bytes, a: BlockRecord, b: BlockRecord)
    requires HeadFits(a) && HeadFits(b) && CountWritable(Bare, a.tx) && CountWritable(Bare, b.tx)
    requires At(s, 0, BlockBytes(a, WRITTEN)) && At(s, 0, BlockBytes(b, WRITTEN))
    ensures a == b
  {
    hide At, HeadBytes, ParseHead, CountedBytes, CountWritable, HeadFits, Unique;
    AtConcat(s, 0, HeadBytes(a), CountedBytes(TxEncoder(WRITTEN), a.tx));
    AtConcat(s, 0, HeadBytes(b), CountedBytes(TxEncoder(WRITTEN), b.tx));
    HeadExact(s, a, |HeadBytes(a)|);
    HeadExact(s, b, |HeadBytes(b)|);
    BareUnique(s);
    CountedUnique(TxEncoder(WRITTEN), Bare, a.tx, b.tx, s, |HeadBytes(a)|);
  }

  function BlockLength(b: BlockRecord, w: CoinWidth): nat {
    41 + |b.prevHash| + |b.coinbase.target| + Sum((t: Tx) => TxLength(t, w), b.tx)
  }

  /**
   Every read of a successful decode is bounds-checked, so on a serialized block (with anything
   behind it) all reads are in range, and together they advance the cursor by the closed form.
   */
  lemma BlockAdvance(b: BlockRecord, suffix: Bytes, h: Bytes)
    requires BlockFits(b, WRITTEN)
    ensures var r := ParseBlock(BlockBytes(b, WRITTEN) + suffix, WRITTEN, h);
            r.Got? && r.next == BlockLength(b, WRITTEN)
  {
    hide BlockFits, ParseBlock, TxBytes, TxLength;
    BlockRoundTrip(b, suffix, h);
    var len := (t: Tx) => TxLength(t, WRITTEN);
    forall t: Tx ensures |TxEncoder(WRITTEN)(t)| == len(t) {
      TxLengthExact(t, WRITTEN);
    }
    ConcatLength(TxEncoder(WRITTEN), len, b.tx);
  }

  lemma ParseBlockErrors(s: Bytes, w: CoinWidth, h: Bytes)
    ensures var r := ParseBlock(s, w, h); r.Fail? ==> ReadError(r.error)
  {
    hide ReadCounted, TxCodec, ReadErrorsOnly, At, LE;
    TxErrors(w, h);
    if ParseHead(s).Got? {
      CountedErrors(TxCodec(w, h).dec, s, ParseHead(s).next);
    }
  }

  // ---- the object ----

  class Block {
    var tx: seq<Tx>
    var index: uint64
    var solved: uint8
    var bitThresh: uint8
    var prevHash: Bytes
    var hash: Bytes
    var timestamp: uint64
    var nonce: uint32
    var coinbase: Coinbase

    function Record(): BlockRecord
      reads this
    {
      BlockRecord(tx, index, bitThresh, prevHash, timestamp, nonce, coinbase)
    }

    /** `solved` and the coinbase keep whatever value they get, as in the source. */
    constructor (now: uint64)
      ensures tx == [] && index == 0 && nonce == 0 && bitThresh == 0 && timestamp == now
      ensures prevHash == [] && hash == []
    {
      tx, index, nonce, bitThresh, timestamp := [], 0, 0, 0, now;
      prevHash, hash := [], [];
    }

    method Serialize() returns (serial: Bytes)
      ensures serial == BlockBytes(Record(), WRITTEN)
    {
      hide LE;
      var s := new StringStream();
      s.WriteInt(index, 8);
      s.WriteInt(bitThresh, 1);
      s.WriteInt(|prevHash|, 4);
      s.WriteBytes(prevHash);
      s.WriteInt(nonce, 4);
      s.WriteInt(timestamp, 8);
      s.WriteInt(|coinbase.target|, 4);
      s.WriteBytes(coinbase.target);
      s.WriteInt(coinbase.coins, 8);
      assert s.data == HeadBytes(Record());
      WriteTxs(s, tx);
      return s.data;
    }

    method Hash(sha: Bytes -> Digest) returns (h: Bytes)
      modifies this`hash
      ensures h == hash == sha(BlockBytes(Record(), WRITTEN))
    {
      var hashdat := Serialize();
      hash := sha(hashdat);
      return hash;
    }
  }

  method WriteTxs(s: StringStream, tx: seq<Tx>)
    modifies s
    ensures s.data == old(s.data) + CountedBytes(TxEncoder(WRITTEN), tx)
  {
    hide LE, TxBytes;
    s.WriteInt(|tx|, 4);
    for i := 0 to |tx|
      invariant s.data == old(s.data) + (LE(|tx|, 4) + Concat(TxEncoder(WRITTEN), tx[..i]))
    {
      var t := SerializeTx(tx[i]);
      s.WriteBytes(t);
      ConcatSnoc(TxEncoder(WRITTEN), tx, i);
    }
    assert tx[..|tx|] == tx;
  }

  method DecodeHead(serial: Bytes, cr: Cursor) returns (r: Result<Head>)
    requires cr.pos == 0
    modifies cr
    ensures r == ParseHead(serial).Result()
    ensures r.Ok? ==> cr.pos == ParseHead(serial).next
  {
    hide LE, At, ReadInt, ReadString, StringBytes, Pow256, Value;
    var index :- ReadUint64(serial, cr.pos).Result();
    cr.pos := cr.pos + 8;
    var bitThresh :- ReadUint8(serial, cr.pos).Result();
    cr.pos := cr.pos + 1;
    var prevHash :- TakeString(serial, cr);
    var nonce :- TakeUint32(serial, cr);
    var timestamp :- ReadUint64(serial, cr.pos).Result();
    cr.pos := cr.pos + 8;
    var key :- TakeString(serial, cr);
    var coins :- ReadUint64(serial, cr.pos).Result();
    cr.pos := cr.pos + 8;
    return Ok(Head(index, bitThresh, prevHash, nonce, timestamp, key, coins));
  }

  method DecodeTxs(serial: Bytes, cr: Cursor, w: CoinWidth, sha: Bytes -> Digest) returns (r: Result<seq<Tx>>)
    modifies cr
    ensures r == ReadCounted(TxCodec(w, sha(serial)).dec, serial, old(cr.pos)).Result()
    ensures r.Ok? ==> cr.pos == ReadCounted(TxCodec(w, sha(serial)).dec, serial, old(cr.pos)).next
  {
    hide LE, ParseTx, ReadInt;
    ghost var dec := TxCodec(w, sha(serial)).dec;
    var size :- TakeUint32(serial, cr);
    if size >= TWO_TO_THE_31 {
      return Err(CountOverflow);
    }
    ghost var first := cr.pos;
    var tx := [];
    for i := 0 to size
      invariant ReadN(dec, i, serial, first) == Got(tx, cr.pos)
    {
      var t := DecodeTx(serial, cr, w, sha);
      if t.Err? {
        ReadNFails(dec, i + 1, size, serial, first);
        return Err(t.error);
      }
      tx := tx + [t.value];
    }
    return Ok(tx);
  }

  /** `end` is where the decoder's own cursor stops. */
  method DecodeBlock(serial: Bytes, w: CoinWidth, sha: Bytes -> Digest) returns (r: Result<Block>, ghost end: nat)
    ensures var read := ParseBlock(serial, w, sha(serial));
            match r {
              case Ok(b) =>
                && fresh(b) && read == Got(b.Record(), end)
                && b.hash == sha(BlockBytes(b.Record(), WRITTEN))
              case Err(e) => read == Fail(e)
            }
  {
    hide ParseHead, ReadCounted, TxCodec, BlockBytes;
    end := 0;
    var cr := new Cursor(0);
    var head := DecodeHead(serial, cr);
    if head.Err? {
      return Err(head.error), end;
    }
    var tx := DecodeTxs(serial, cr, w, sha);
    if tx.Err? {
      return Err(tx.error), end;
    }
    end := cr.pos;
    var hd := head.value;
    var b := new Block(0);
    b.index, b.bitThresh, b.prevHash := hd.index, hd.bitThresh, hd.prevHash;
    b.nonce, b.timestamp := hd.nonce, hd.timestamp;
    b.tx := tx.value;
    if hd.key == [] {
      return Err(EmptyKey), end;
    }
    b.coinbase := Coinbase(hd.coins, hd.key);
    var _ := b.Hash(sha);
    return Ok(b), end;
  }
}
