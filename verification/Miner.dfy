/**
 The mining loop. Its two limits, UINT32_MAX nonces a round and 10000 attempts a call in the
 source, are parameters; `AsConfigured` puts them back.
 */
module Miner {
  import opened Prelude
  import opened Transactions
  import opened Blocks
  import opened AsWritten
  import opened JumboPacket
  import opened Connections

  /** As many leading '0' characters as the threshold asks for. */
  ghost predicate Solves(bitThresh: uint8, hash: Bytes) {
    bitThresh <= |hash| && forall i :: 0 <= i < bitThresh ==> hash[i] == 48
  }

  method IsMined(b: Block) returns (r: bool)
    ensures r <==> b.bitThresh <= |b.hash| && forall i :: 0 <= i < b.bitThresh ==> b.hash[i] == 48  // '0'
  {
    if b.bitThresh > |b.hash| {
      return false;
    }
    for i := 0 to b.bitThresh
      invariant forall j :: 0 <= j < i ==> b.hash[j] == 48
    {
      if b.hash[i] != 48 {
        return false;
      }
    }
    return true;
  }

  /** The block of attempt `k`: nonces in rounds of `limit`, a new timestamp each round. */
  function Attempt(b: BlockRecord, clock: nat -> uint64, limit: uint32, k: nat): BlockRecord
    requires limit > 0
  {
    b.(nonce := k % limit, timestamp := if k < limit then b.timestamp else clock(k / limit - 1))
  }

  ghost predicate Succeeds(b: BlockRecord, clock: nat -> uint64, limit: uint32, sha: Bytes -> Digest, k: nat)
    requires limit > 0
  {
    Solves(b.bitThresh, sha(BlockBytes(Attempt(b, clock, limit, k), WRITTEN)))
  }

  /** `k` is the last attempt of a call: the first that succeeds, or the last one allowed. */
  ghost predicate Stops(
    b: BlockRecord, clock: nat -> uint64, limit: uint32, interval: uint64, sha: Bytes -> Digest, k: nat)
    requires limit > 0
  {
    && k < interval
    && (forall j :: 0 <= j < k ==> !Succeeds(b, clock, limit, sha, j))
    && (Succeeds(b, clock, limit, sha, k) || k == interval - 1)
  }

  lemma SucceedsIs(b: BlockRecord, clock: nat -> uint64, limit: uint32, sha: Bytes -> Digest, k: nat)
    requires limit > 0
    ensures var h := sha(BlockBytes(Attempt(b, clock, limit, k), 8));
            Succeeds(b, clock, limit, sha, k) <==>
            b.bitThresh <= |h| && forall i :: 0 <= i < b.bitThresh ==> h[i] == 48
  {
    hide BlockBytes, Attempt;
  }

  /** The attempts of a call, digit by digit. */
  lemma StopsIs(
    b: BlockRecord, clock: nat -> uint64, limit: uint32, interval: uint64, sha: Bytes -> Digest, k: nat)
    requires limit > 0
    ensures Stops(b, clock, limit, interval, sha, k) <==>
            && k < interval
            && (forall j :: 0 <= j < k ==>
                  var h := sha(BlockBytes(Attempt(b, clock, limit, j), 8));
                  !(b.bitThresh <= |h| && forall i :: 0 <= i < b.bitThresh ==> h[i] == 48))
            && var h := sha(BlockBytes(Attempt(b, clock, limit, k), 8));
               k == interval - 1 || (b.bitThresh <= |h| && forall i :: 0 <= i < b.bitThresh ==> h[i] == 48)
  {
    hide BlockBytes, Attempt, Succeeds;
    forall j: nat
      ensures Succeeds(b, clock, limit, sha, j) <==>
              var h := sha(BlockBytes(Attempt(b, clock, limit, j), 8));
              b.bitThresh <= |h| && forall i :: 0 <= i < b.bitThresh ==> h[i] == 48
    {
      SucceedsIs(b, clock, limit, sha, j);
    }
  }

  method BroadcastMinedBlock(b: Block, server: TcpServer, ok: Client -> bool)
    modifies server`sent
    ensures old(server.sent) <= server.sent
    ensures var n := |server.sent| - |old(server.sent)|;
            && n <= |server.clients| && (n < |server.clients| ==> !ok(server.clients[n]))
            && forall i :: 0 <= i < n ==>
                 && ok(server.clients[i])
                 && server.sent[|old(server.sent)| + i] == (server.clients[i].fd, MinedBlockPacket(b.Record()))
  {
    hide MinedBlockPacket;
    var p := SerializeMinedBlock(b);
    var _ := server.SendToAllClients(p, ok);
  }

  /** `clock(i)` is what the i-th call of `std::time` returns, `ok` whether a client can be sent to. */
  method MineBlock(
    b: Block, server: TcpServer, ok: Client -> bool, clock: nat -> uint64, limit: uint32, interval: uint64,
    sha: Bytes -> Digest) returns (ghost last: nat)
    requires limit > 0 && interval > 0
    modifies b`nonce, b`hash, b`timestamp, server`sent
    ensures b.Record() == Attempt(old(b.Record()), clock, limit, last)
    ensures b.hash == sha(BlockBytes(b.Record(), 8))
    ensures Stops(old(b.Record()), clock, limit, interval, sha, last)
    ensures var mined := b.bitThresh <= |b.hash| && forall i :: 0 <= i < b.bitThresh ==> b.hash[i] == 48;
            && (mined || last == interval - 1)
            && (!mined ==> server.sent == old(server.sent))
            && (mined ==>
                  && old(server.sent) <= server.sent
                  && var n := |server.sent| - |old(server.sent)|;
                  && n <= |server.clients| && (n < |server.clients| ==> !ok(server.clients[n]))
                  && forall i :: 0 <= i < n ==>
                       && ok(server.clients[i])
                       && server.sent[|old(server.sent)| + i] == (server.clients[i].fd, MinedBlockPacket(b.Record())))
  {
    hide BlockBytes, MinedBlockPacket, Succeeds, Attempt;
    ghost var start := b.Record();
    var attempts := 0;
    var round := 0;  // calls of std::time so far
    ghost var first := 0;
    last := 0;
    while true
      invariant attempts == first == round * limit && attempts < interval
      invariant b.Record() == start.(nonce := b.nonce, timestamp := b.timestamp)
      invariant b.timestamp == if round == 0 then start.timestamp else clock(round - 1)
      invariant forall j :: 0 <= j < attempts ==> !Succeeds(start, clock, limit, sha, j)
      invariant server.sent == old(server.sent)
      decreases interval - attempts
    {
      var good := false;
      b.nonce := 0;
      while b.nonce < limit
        invariant !good && b.nonce <= limit && attempts == first + b.nonce
        invariant attempts < interval && first == round * limit
        invariant b.timestamp == if round == 0 then start.timestamp else clock(round - 1)
        invariant b.Record() == start.(nonce := b.nonce, timestamp := b.timestamp)
        invariant forall j :: 0 <= j < attempts ==> !Succeeds(start, clock, limit, sha, j)
        invariant server.sent == old(server.sent)
        decreases limit - b.nonce
      {
        assert b.Record() == Attempt(start, clock, limit, attempts) by {
          AttemptIs(start, clock, limit, round, b.nonce);
        }
        var _ := b.Hash(sha);
        var mined := IsMined(b);
        SucceedsIs(start, clock, limit, sha, attempts);
        last := attempts;
        if mined {
          BroadcastMinedBlock(b, server, ok);
          good := true;
          break;
        }
        attempts := attempts + 1;
        OnlyAtInterval(attempts, interval);
        if attempts % interval == 0 {
          good := true;
          break;
        }
        b.nonce := b.nonce + 1;
      }
      if good {
        break;
      }
      b.timestamp := clock(round);
      round := round + 1;
      first := attempts;
    }
    SucceedsIs(start, clock, limit, sha, last);
  }

  lemma {:induction false} DivMod(round: nat, nonce: nat, limit: nat)
    requires nonce < limit
    ensures (round * limit + nonce) / limit == round && (round * limit + nonce) % limit == nonce
  {
    if round > 0 {
      var n := (round - 1) * limit + nonce;
      DivMod(round - 1, nonce, limit);
      assert round * limit + nonce == n + limit;
      OneMore(n, limit);
    }
  }

  lemma OneMore(n: nat, limit: nat)
    requires limit > 0
    ensures (n + limit) / limit == n / limit + 1 && (n + limit) % limit == n % limit
  {
    var q, r := n / limit, n % limit;
    var q1, r1 := (n + limit) / limit, (n + limit) % limit;
    assert n == q * limit + r && n + limit == q1 * limit + r1;
    var d := q1 - q - 1;
    assert d * limit == q1 * limit - q * limit - limit;
    assert d * limit == r - r1;
    if d >= 1 {
      AtLeast(d, limit);
    } else if d <= -1 {
      AtLeast(-d, limit);
    }
  }

  lemma AtLeast(d: int, limit: nat)
    requires d >= 1
    ensures d * limit >= limit
  {
    assert d * limit == (d - 1) * limit + limit;
    assert (d - 1) * limit >= 0;
  }

  lemma RoundAndNonce(round: nat, nonce: nat, limit: nat)
    requires nonce < limit
    ensures (round * limit + nonce) % limit == nonce && (round * limit + nonce) / limit == round
    ensures round * limit + nonce < limit <==> round == 0
  {
    DivMod(round, nonce, limit);
    if round > 0 {
      AtLeast(round, limit);
    }
  }

  lemma OnlyAtInterval(attempts: nat, interval: nat)
    requires 0 < attempts <= interval
    ensures attempts % interval == 0 <==> attempts == interval
  {
  }

  // ---- what a call achieves ----

  /** Where a call stops is determined: there is exactly one such attempt. */
  lemma StopsOnce(b: BlockRecord, clock: nat -> uint64, limit: uint32, interval: uint64, sha: Bytes -> Digest)
    returns (k: nat)
    requires limit > 0 && interval > 0
    ensures Stops(b, clock, limit, interval, sha, k)
    ensures forall j :: Stops(b, clock, limit, interval, sha, j) ==> j == k
  {
    hide Succeeds;
    k := FirstStop(b, clock, limit, interval, sha, 0);
  }

  lemma {:induction false} FirstStop(
    b: BlockRecord, clock: nat -> uint64, limit: uint32, interval: uint64, sha: Bytes -> Digest, n: nat)
    returns (k: nat)
    requires limit > 0 && n < interval
    requires forall j :: 0 <= j < n ==> !Succeeds(b, clock, limit, sha, j)
    ensures Stops(b, clock, limit, interval, sha, k)
    decreases interval - n
  {
    hide Succeeds;
    if n == interval - 1 || Succeeds(b, clock, limit, sha, n) {
      k := n;
    } else {
      k := FirstStop(b, clock, limit, interval, sha, n + 1);
    }
  }

  /** What is tried: nonce after nonce, and a new time for each round of them. */
  lemma AttemptIs(b: BlockRecord, clock: nat -> uint64, limit: uint32, round: nat, nonce: nat)
    requires nonce < limit
    ensures Attempt(b, clock, limit, round * limit + nonce) ==
            b.(nonce := nonce, timestamp := if round == 0 then b.timestamp else clock(round - 1))
  {
    RoundAndNonce(round, nonce, limit);
  }

  /**
   With the source's constants a call never leaves the first round: the timestamp stands, and
   the call ends on the least nonce below 10000 that solves the block, or on 9999 when none does.
   */
  lemma AsConfigured(b: BlockRecord, clock: nat -> uint64, sha: Bytes -> Digest, k: nat)
    requires Stops(b, clock, 0xFFFF_FFFF, 10000, sha, k)
    ensures k < 10000 && Attempt(b, clock, 0xFFFF_FFFF, k) == b.(nonce := k)
    ensures forall j :: 0 <= j < k ==>
              var h := sha(BlockBytes(b.(nonce := j), 8));
              !(b.bitThresh <= |h| && forall i :: 0 <= i < b.bitThresh ==> h[i] == 48)
    ensures var h := sha(BlockBytes(b.(nonce := k), 8));
            k == 9999 || (b.bitThresh <= |h| && forall i :: 0 <= i < b.bitThresh ==> h[i] == 48)
  {
    hide BlockBytes;
    forall j | 0 <= j < 10000
      ensures Attempt(b, clock, 0xFFFF_FFFF, j) == b.(nonce := j)
      ensures Succeeds(b, clock, 0xFFFF_FFFF, sha, j) <==>
              Solves(b.bitThresh, sha(BlockBytes(b.(nonce := j), 8)))
    {
    }
  }

  /** The call as the server makes it. */
  method MineAsConfigured(
    b: Block, server: TcpServer, ok: Client -> bool, clock: nat -> uint64, sha: Bytes -> Digest)
    modifies b`nonce, b`hash, b`timestamp, server`sent
    ensures b.nonce < 10000 && b.Record() == old(b.Record()).(nonce := b.nonce)
    ensures b.hash == sha(BlockBytes(b.Record(), 8))
    ensures forall j :: 0 <= j < b.nonce ==>
              var h := sha(BlockBytes(old(b.Record()).(nonce := j), 8));
              !(b.bitThresh <= |h| && forall i :: 0 <= i < b.bitThresh ==> h[i] == 48)
    ensures var mined := b.bitThresh <= |b.hash| && forall i :: 0 <= i < b.bitThresh ==> b.hash[i] == 48;
            && (mined || b.nonce == 9999)
            && (!mined ==> server.sent == old(server.sent))
            && (mined ==>
                  && old(server.sent) <= server.sent
                  && var n := |server.sent| - |old(server.sent)|;
                  && n <= |server.clients| && (n < |server.clients| ==> !ok(server.clients[n]))
                  && forall i :: 0 <= i < n ==>
                       && ok(server.clients[i])
                       && server.sent[|old(server.sent)| + i] == (server.clients[i].fd, MinedBlockPacket(b.Record())))
  {
    hide BlockBytes, MinedBlockPacket, Stops, Attempt;
    ghost var last := MineBlock(b, server, ok, clock, 0xFFFF_FFFF, 10000, sha);
    AsConfigured(old(b.Record()), clock, sha, last);
    assert b.nonce == b.Record().nonce == last;
  }

  /**
   What is mined and broadcast is mined at the receiver: the packet of a successful attempt
   decodes to a block with the same fields whose own hash still solves it -- at the intended
   coin width for exactly the representable blocks, as written for those with `NarrowSafe` lists.
   */
  lemma MinedEndToEnd(
    b: BlockRecord, clock: nat -> uint64, limit: uint32, interval: uint64, sha: Bytes -> Digest, k: nat,
    w: CoinWidth)
    requires limit > 0
    requires Stops(b, clock, limit, interval, sha, k) && Succeeds(b, clock, limit, sha, k)
    ensures var mined := Attempt(b, clock, limit, k);
            var r := DecodePacket(MinedBlockPacket(mined), w, sha);
            (r.Ok? && r.value.MinedBlock? && r.value.block.Wire() == mined.Wire()
             && Solves(r.value.block.bitThresh, r.value.hash)) <==>
            BlockFits(b, w) && (w == TAKEN ==> NarrowSafe(b.tx))
  {
    hide BlockBytes, PacketBytes, MinedBlockPacket, Solves, BlockFits, NarrowSafe, DecodePacket;
    var mined := Attempt(b, clock, limit, k);
    var p, h := MinedBlockPacket(mined), sha([]);
    assert p == PacketBytes(MinedBlock(mined, h), WRITTEN);
    MinedBlockRoundTrip(mined, h, [], w, sha);
    assert p + [] == p;
    SameFit(b, mined, w);
    var r := DecodePacket(p, w, sha);
    if r.Ok? && r.value.MinedBlock? && r.value.block.Wire() == mined.Wire() {
      assert r.value.block.bitThresh == r.value.block.Wire().bitThresh == mined.Wire().bitThresh == b.bitThresh;
    }
  }

  lemma SameFit(a: BlockRecord, b: BlockRecord, w: CoinWidth)
    requires b == a.(nonce := b.nonce, timestamp := b.timestamp)
    ensures BlockFits(a, w) <==> BlockFits(b, w)
  {
  }
}
