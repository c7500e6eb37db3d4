/** Packets: magic word, type, and data that depends on the type. */
module JumboPacket {
  import opened Prelude
  import opened LittleEndian
  import opened Wire
  import opened Transactions
  import opened Blocks
  import opened AsWritten

  const MAGIC_WORD: uint32 := 0xFA00AF00

  const HIGHEST_MESSAGE_TYPE: uint16 := 5
  const CLIENT_NULL: uint16 := 0
  const CLIENT_POKE: uint16 := 1
  const CLIENT_HEARTBEAT: uint16 := 2
  const SIMPLE_STRING: uint16 := 3
  const MINED_BLOCK: uint16 := 4
  const BLOCK_HEADERS: uint16 := 5
  const BROADCAST_TX: uint16 := 6

  const DATA_START: nat := 6

  /** What DecodePacket can return, over all packet types. */
  datatype Decoded =
    | Poke(ip: Bytes)
    | Heartbeat
    | SimpleString(text: Bytes)
    | MinedBlock(block: BlockRecord, hash: Digest)
  {
    function Type(): uint16 {
      match this
      case Poke(_) => CLIENT_POKE
      case Heartbeat => CLIENT_HEARTBEAT
      case SimpleString(_) => SIMPLE_STRING
      case MinedBlock(_, _) => MINED_BLOCK
    }
  }

  // ---- the format ----

  function PacketHeader(t: uint16): (e: Bytes)
    ensures |e| == DATA_START
  {
    LE(MAGIC_WORD, 4) + LE(t, 2)
  }

  /** The magic word comes out least significant byte first, and so does the type. */
  lemma HeaderLayout(t: uint16)
    ensures t < 0x100 ==> PacketHeader(t) == [0x00, 0xAF, 0x00, 0xFA, t, 0]
  {
    LEDigits(MAGIC_WORD);
    LEDigits(t);
    hide LE;
  }

  function DataBytes(d: Decoded, w: CoinWidth): Bytes {
    match d
    case Poke(ip) => StringBytes(ip)
    case Heartbeat => []
    case SimpleString(text) => StringBytes(text)
    case MinedBlock(b, _) => BlockBytes(b, w)
  }

  function PacketBytes(d: Decoded, w: CoinWidth): Bytes {
    PacketHeader(d.Type()) + DataBytes(d, w)
  }

  /** The packet of a mined block; its hash does not travel. */
  function MinedBlockPacket(b: BlockRecord): (e: Bytes)
    ensures forall h :: e == PacketBytes(MinedBlock(b, h), WRITTEN)
    ensures e == [0x00, 0xAF, 0x00, 0xFA, 4, 0] + BlockBytes(b, 8)
  {
    HeaderLayout(MINED_BLOCK);
    PacketHeader(MINED_BLOCK) + BlockBytes(b, WRITTEN)
  }

  // ---- the serializers ----

  class Packet {
    const data: StringStream

    constructor (messageType: uint16)
      ensures fresh(data) && data.data == PacketHeader(messageType)
    {
      var s := new StringStream();
      s.WriteInt(MAGIC_WORD, 4);
      s.WriteInt(messageType, 2);
      data := s;
    }

    method Serialize() returns (serial: Bytes)
      ensures serial == data.data
    {
      return data.data;
    }
  }

  method SerializeClientPoke(ip: Bytes) returns (serial: Bytes)
    ensures serial == PacketBytes(Poke(ip), WRITTEN)
    ensures serial == [0x00, 0xAF, 0x00, 0xFA, 1, 0] + LE(|ip|, 4) + ip
  {
    hide LE;
    HeaderLayout(CLIENT_POKE);
    var packet := new Packet(CLIENT_POKE);
    packet.data.WriteInt(|ip|, 4);
    packet.data.WriteBytes(ip);
    serial := packet.Serialize();
  }

  method SerializeHeartbeat() returns (serial: Bytes)
    ensures serial == PacketBytes(Heartbeat, WRITTEN)
    ensures serial == [0x00, 0xAF, 0x00, 0xFA, 2, 0]
  {
    hide LE;
    HeaderLayout(CLIENT_HEARTBEAT);
    var packet := new Packet(CLIENT_HEARTBEAT);
    serial := packet.Serialize();
  }

  method SerializeSimpleString(text: Bytes) returns (serial: Bytes)
    ensures serial == PacketBytes(SimpleString(text), WRITTEN)
    ensures serial == [0x00, 0xAF, 0x00, 0xFA, 3, 0] + LE(|text|, 4) + text
  {
    hide LE;
    HeaderLayout(SIMPLE_STRING);
    var packet := new Packet(SIMPLE_STRING);
    packet.data.WriteInt(|text|, 4);
    packet.data.WriteBytes(text);
    serial := packet.Serialize();
  }

  method SerializeMinedBlock(block: Block) returns (serial: Bytes)
    ensures serial == MinedBlockPacket(block.Record())
    ensures serial == [0x00, 0xAF, 0x00, 0xFA, 4, 0] + BlockBytes(block.Record(), 8)
  {
    hide LE, BlockBytes;
    HeaderLayout(MINED_BLOCK);
    var packet := new Packet(MINED_BLOCK);
    var b := block.Serialize();
    packet.data.WriteBytes(b);
    serial := packet.Serialize();
  }

  // ---- the decoders ----

  lemma HeaderDigits(p: Bytes)
    requires |p| >= 6
    ensures Value(p[0..4]) == MAGIC_WORD <==> p[..4] == [0x00, 0xAF, 0x00, 0xFA]
    ensures var low: nat, high: nat := p[4], p[5]; Value(p[4..6]) == low + 0x100 * high
  {
    assert p[0..4] == p[..4] == [p[0], p[1], p[2], p[3]] && p[4..6] == [p[4], p[5]];
    ValueDigits(p[0], p[1], p[2], p[3]);
    ValueDigits(p[4], p[5], 0, 0);
  }

  /** Only the length and the type are looked at; the magic word is read and dropped. */
  function ReadHeader(p: Bytes): (t: uint16)
    ensures t == if |p| >= 6 && p[5] == 0 && p[4] <= 5 then p[4] else 0
  {
    Widths();
    if |p| < 6 then CLIENT_NULL else
    HeaderDigits(p);
    var messageType := Value(p[4..6]);
    if messageType > HIGHEST_MESSAGE_TYPE then CLIENT_NULL else messageType
  }

  function DecodeClientPoke(p: Bytes): Result<Decoded> {
    var ip :- ReadString(p, DATA_START).Result();
    Ok(Poke(ip))
  }

  function DecodeHeartbeat(p: Bytes): Result<Decoded> {
    Ok(Heartbeat)
  }

  function DecodeSimpleString(p: Bytes): Result<Decoded> {
    var text :- ReadString(p, DATA_START).Result();
    Ok(SimpleString(text))
  }

  /** The decoded block carries the hash of its own serialization. */
  function DecodeMinedBlock(p: Bytes, w: CoinWidth, sha: Bytes -> Digest): Result<Decoded> {
    if |p| < DATA_START then Err(OutOfRange) else
    var b :- ParseBlock(p[DATA_START..], w, sha(p[DATA_START..])).Result();
    Ok(MinedBlock(b, sha(BlockBytes(b, WRITTEN))))
  }

  function DecodePacket(p: Bytes, w: CoinWidth, sha: Bytes -> Digest): Result<Decoded> {
    if |p| < 6 then Err(ShortPacket)
    else if Value(p[0..4]) != MAGIC_WORD then Err(BadMagic)
    else
      var messageType := Value(p[4..6]);
      if messageType == CLIENT_POKE then DecodeClientPoke(p)
      else if messageType == CLIENT_HEARTBEAT then DecodeHeartbeat(p)
      else if messageType == SIMPLE_STRING then DecodeSimpleString(p)
      else if messageType == MINED_BLOCK then DecodeMinedBlock(p, w, sha)
      else Err(BadType)
  }

  // ---- exactness ----

  /** What a decoder given a packet with the data part `data` can return. */
  ghost predicate PacketFits(d: Decoded, w: CoinWidth, sha: Bytes -> Digest, data: Bytes) {
    match d
    case Poke(ip) => |ip| < TWO_TO_THE_32
    case Heartbeat => true
    case SimpleString(text) => |text| < TWO_TO_THE_32
    case MinedBlock(b, h) => BlockFits(b, w) && b == b.Stamp(sha(data)) && h == sha(BlockBytes(b, WRITTEN))
  }

  lemma PacketHeaderExact(p: Bytes, t: uint16)
    ensures PacketHeader(t) <= p <==> |p| >= 6 && Value(p[0..4]) == MAGIC_WORD && Value(p[4..6]) == t
  {
    Widths();
    if PacketHeader(t) <= p {
      assert p[0..4] == PacketHeader(t)[0..4] == LE(MAGIC_WORD, 4);
      assert p[4..6] == PacketHeader(t)[4..6] == LE(t, 2);
      ValueOfLE(MAGIC_WORD, 4);
      ValueOfLE(t, 2);
    }
    if |p| >= 6 {
      LEOfValue(p[0..4]);
      LEOfValue(p[4..6]);
      assert p[0..4] + p[4..6] == p[..6];
    }
  }

  lemma StringDataExact(p: Bytes, b: Bytes)
    requires |p| >= DATA_START
    ensures ReadString(p, DATA_START).Result() == Ok(b) <==>
            |b| < TWO_TO_THE_32 && StringBytes(b) <= p[DATA_START..]
  {
    hide StringBytes;
    if |p| >= DATA_START + 4 + |b| {
      assert p[DATA_START..][..4 + |b|] == p[DATA_START..DATA_START + 4 + |b|];
    }
    if |b| < TWO_TO_THE_32 && StringBytes(b) <= p[DATA_START..] {
      ReadStringComplete(p, DATA_START, b);
    }
  }

  lemma BlockDataExact(data: Bytes, b: BlockRecord, w: CoinWidth, h: Bytes)
    ensures ParseBlock(data, w, h).Result() == Ok(b) <==>
            BlockFits(b, w) && b == b.Stamp(h) && BlockBytes(b, w) <= data
  {
    hide BlockBytes, BlockFits, ParseBlock;
    BlockExact(data, b, w, h, |BlockBytes(b, w)|);
    var r := ParseBlock(data, w, h);
    if r.Got? {
      BlockExact(data, r.value, w, h, r.next);
    }
  }

  /**
   DecodePacket returns `d` exactly on the byte strings that begin with the packet of a
   representable `d`.
   */
  lemma DecodePacketExact(p: Bytes, d: Decoded, w: CoinWidth, sha: Bytes -> Digest)
    ensures DecodePacket(p, w, sha) == Ok(d) <==>
            |p| >= 6 && PacketBytes(d, w) <= p && PacketFits(d, w, sha, p[DATA_START..])
  {
    hide LE, Value, StringBytes, BlockBytes, BlockFits, ParseBlock, PacketHeader, ReadString;
    PacketHeaderExact(p, d.Type());
    if |p| >= 6 {
      var data := p[DATA_START..];
      assert p == p[..DATA_START] + data;
      assert PacketBytes(d, w) <= p <==> PacketHeader(d.Type()) <= p && DataBytes(d, w) <= data by {
        PrefixConcat(PacketHeader(d.Type()), DataBytes(d, w), p);
      }
      match d
      case Poke(ip) => StringDataExact(p, ip);
      case Heartbeat =>
      case SimpleString(text) => StringDataExact(p, text);
      case MinedBlock(b, _) => BlockDataExact(data, b, w, sha(data));
    }
  }

  lemma PrefixConcat(a: Bytes, b: Bytes, p: Bytes)
    requires |a| <= |p|
    ensures a + b <= p <==> a <= p && b <= p[|a|..]
  {
    AtConcat(p, 0, a, b);
    if |a + b| <= |p| {
      assert p[..|a|] == p[0..|a|];
      assert p[|a|..][..|b|] == p[|a|..|a| + |b|];
    }
  }

  /** Decoding what a serializer wrote, with anything behind it. */
  lemma PokeRoundTrip(ip: Bytes, rest: Bytes, w: CoinWidth, sha: Bytes -> Digest)
    ensures DecodePacket(PacketBytes(Poke(ip), WRITTEN) + rest, w, sha) == Ok(Poke(ip)) <==> |ip| < TWO_TO_THE_32
  {
    hide PacketHeader, StringBytes, DecodePacket;
    DecodePacketExact(PacketBytes(Poke(ip), WRITTEN) + rest, Poke(ip), w, sha);
  }

  lemma SimpleStringRoundTrip(text: Bytes, rest: Bytes, w: CoinWidth, sha: Bytes -> Digest)
    ensures DecodePacket(PacketBytes(SimpleString(text), WRITTEN) + rest, w, sha) == Ok(SimpleString(text)) <==>
            |text| < TWO_TO_THE_32
  {
    hide PacketHeader, StringBytes, DecodePacket;
    DecodePacketExact(PacketBytes(SimpleString(text), WRITTEN) + rest, SimpleString(text), w, sha);
  }

  /**
   A mined block arrives with its wire fields and its own hash: at the intended coin width for
   exactly the representable blocks, as written for exactly those `BlockAsWritten` names.
   */
  lemma MinedBlockRoundTrip(b: BlockRecord, h: Digest, rest: Bytes, w: CoinWidth, sha: Bytes -> Digest)
    ensures var r := DecodePacket(PacketBytes(MinedBlock(b, h), WRITTEN) + rest, w, sha);
            (r.Ok? && r.value.MinedBlock? && r.value.block.Wire() == b.Wire() <==>
             BlockFits(b, w) && (w == TAKEN ==> NarrowSafe(b.tx)))
            && (r.Ok? && r.value.MinedBlock? && r.value.block.Wire() == b.Wire() ==>
                r.value.hash == sha(BlockBytes(b, WRITTEN)))
  {
    hide LE, Value, PacketHeader, BlockBytes, BlockFits, ParseBlock, NarrowSafe;
    var data := BlockBytes(b, WRITTEN) + rest;
    var p := PacketBytes(MinedBlock(b, h), WRITTEN) + rest;
    assert p == PacketHeader(MINED_BLOCK) + data;
    assert p[DATA_START..] == data;
    PacketHeaderExact(p, MINED_BLOCK);
    var g := sha(data);
    var r := ParseBlock(data, w, g);
    if r.Got? && r.value.Wire() == b.Wire() {
      WireDecides(r.value, b, WRITTEN, g);
    }
    if w == TAKEN {
      BlockAsWritten(b, rest, g);
    } else {
      BlockIntended(b, rest, g);
    }
  }

  lemma BlockIntended(b: BlockRecord, suffix: Bytes, h: Bytes)
    ensures var r := ParseBlock(BlockBytes(b, WRITTEN) + suffix, WRITTEN, h);
            r.Got? && r.value.Wire() == b.Wire() <==> BlockFits(b, WRITTEN)
  {
    hide BlockBytes, BlockFits, ParseBlock;
    BlockRoundTrip(b, suffix, h);
    StampWire(b, h);
    var r := ParseBlock(BlockBytes(b, WRITTEN) + suffix, WRITTEN, h);
    if r.Got? && r.value.Wire() == b.Wire() {
      BlockCanonical(BlockBytes(b, WRITTEN) + suffix, WRITTEN, h);
      WireDecides(r.value, b, WRITTEN, h);
    }
  }

  /** Packets of different kinds never share a beginning, so they are never the same bytes. */
  lemma KindsDisjoint(d: Decoded, e: Decoded, x: Bytes, y: Bytes)
    requires PacketBytes(d, WRITTEN) + x == PacketBytes(e, WRITTEN) + y
    ensures d.Type() == e.Type()
  {
    hide LE, Value, PacketHeader, DataBytes;
    var p := PacketBytes(d, WRITTEN) + x;
    PacketHeaderExact(p, d.Type());
    PacketHeaderExact(p, e.Type());
  }

  // ---- the two header readers ----

  ghost predicate Dispatches(p: Bytes, w: CoinWidth, sha: Bytes -> Digest) {
    DecodePacket(p, w, sha) !in {Err(ShortPacket), Err(BadMagic), Err(BadType)}
  }

  /** Which packets DecodePacket refuses, and how. */
  lemma RefusalsExact(p: Bytes, w: CoinWidth, sha: Bytes -> Digest)
    ensures var r := DecodePacket(p, w, sha);
            && (r == Err(ShortPacket) <==> |p| < 6)
            && (r == Err(BadMagic) <==> |p| >= 6 && p[..4] != [0x00, 0xAF, 0x00, 0xFA])
            && (r == Err(BadType) <==>
                |p| >= 6 && p[..4] == [0x00, 0xAF, 0x00, 0xFA] && !(p[5] == 0 && 1 <= p[4] <= 4))
  {
    hide Value, LE, ParseBlock, ReadString;
    if |p| >= 6 {
      HeaderDigits(p);
      ParseBlockErrors(p[DATA_START..], w, sha(p[DATA_START..]));
    }
  }

  /** DecodePacket dispatches exactly the packets with a good magic word that ReadHeader puts in 1..4. */
  lemma HeadersAgree(p: Bytes, w: CoinWidth, sha: Bytes -> Digest)
    ensures Dispatches(p, w, sha) <==>
            |p| >= 6 && Value(p[0..4]) == MAGIC_WORD && CLIENT_POKE <= ReadHeader(p) <= MINED_BLOCK
    ensures DecodePacket(p, w, sha).Ok? ==> ReadHeader(p) == DecodePacket(p, w, sha).value.Type()
  {
    hide Value, LE, ParseBlock, ReadString;
    if |p| >= 6 {
      ParseBlockErrors(p[DATA_START..], w, sha(p[DATA_START..]));
    }
  }

  /** A serialized packet is read back under its own type. */
  lemma HeaderOfSerialized(d: Decoded, rest: Bytes)
    ensures ReadHeader(PacketBytes(d, WRITTEN) + rest) == d.Type()
  {
    hide LE, Value, PacketHeader, DataBytes;
    PacketHeaderExact(PacketBytes(d, WRITTEN) + rest, d.Type());
  }

  /** The comment on ReadHeader: a packet with a bad magic word is read as CLIENT_NULL as well. */
  function DocumentedHeader(p: Bytes): uint16 {
    if |p| >= 6 && Value(p[0..4]) == MAGIC_WORD then ReadHeader(p) else CLIENT_NULL
  }

  /**
   ReadHeader keeps what its comment says exactly on packets that are short, carry the magic
   word, or have a type outside 1..5; and no packet is ever read as BROADCAST_TX.
   */
  lemma HeaderAsDocumented(p: Bytes)
    ensures ReadHeader(p) == DocumentedHeader(p) <==>
            |p| < 6 || Value(p[0..4]) == MAGIC_WORD || Value(p[4..6]) == 0 || Value(p[4..6]) > 5
    ensures ReadHeader(p) != BROADCAST_TX
  {
  }

  /** A packet without the magic word that is taken for a heartbeat. */
  lemma HeaderIgnoresMagic()
    ensures var p: Bytes := [0, 0, 0, 0, 2, 0];
            ReadHeader(p) == CLIENT_HEARTBEAT && DocumentedHeader(p) == CLIENT_NULL
  {
    var p: Bytes := [0, 0, 0, 0, 2, 0];
    assert p[4..6] == [2, 0] && p[0..4] == [0, 0, 0, 0];
  }
}
