# JumboCoin node: a verified model

This project models the parts of the JumboCoin node in which several functions have to agree
byte for byte or over time, and proves that they do, or says exactly when they do not.

* **The wire codec** (`LittleEndian`, `Wire`, `CountedList`, `Transactions`, `Blocks`,
  `RoundTrips`, `Layout`, `Truncation`). `Tx_Input`, `Tx_Output`, `Tx` and `Block` are nested length-prefixed records. Each has a format
  (a function to bytes), a parser (a function from a string and a cursor), and the loops that write
  to a growing stream and read through a shared cursor, proved against the two. One statement per
  record carries the rest: the parser returns `x` at a cursor *if and only if* `x` is representable
  and its encoding stands there. Round trip, canonical form, injectivity, prefix-freeness and
  in-range reads follow from it, for any surrounding bytes. A generic counted-list module lifts the
  statement through the three lists.
  `RoundTrips` states the limits as numbers and the results field by field, `Layout` where each field
  stands, and `Truncation` that a decoder given a cut string runs out of bytes instead of returning
  something else.
* **The decoder as written** (`AsWritten`). `Tx_Output::Serialize` writes a coin amount as 8 bytes
  and `Tx_Output::Decode` takes 4. Format and parser therefore take the width as a parameter:
  `WRITTEN` (8) is what the serializer does and what the decoder means to do, `TAKEN` (4) is what
  the decoder does. The round trip at `TAKEN` holds for exactly the blocks `BlockAsWritten` names.
* **Signing** (`Signing`). SHA-256, signing and signature checking are parameters; the only law is
  that a public key accepts what its private key signed.
* **Packets** (`JumboPacket`). Serializers, decoders, and the two functions that read headers.
  `ReadHeader` does not check the magic word although its comment says so; the model follows the
  code and `HeaderAsDocumented` says on which packets the two differ.
* **Mining** (`Miner`). The nested loop with its two limits as parameters. The threshold counts
  leading `'0'` characters (byte 48) of the raw digest, as the code does.
* **The server** (`Connections`, `Runs`, `Visits`, `Sweeps`, `Races`, `NodeServer`, `TimedRuns`).
  The three shared containers as a transition system: each statement of the accept loop, of the
  receive callbacks and of the sweep that touches one of them is a step, so accepting is three steps
  and visiting a silent client is five; the end of a receive task is one. On top of it: what holds
  over every interleaving (`Runs`), exactly what an interleaving does to a client that is visited,
  stored over or hung up (`Visits`), with concrete runs for what goes wrong (`Races`); the sweep
  without interference, which is a filter (`Sweeps`); the server object, whose methods are proved to
  be sequences of those steps; and the same steps with a clock, for the keep-alive and staleness
  bounds. The comment in src/client.cpp speaks of floor(KEEP_ALIVE_TIME/3); the code computes the
  ceiling, and so does the model. The keep-alive bound is strict: at equality a heartbeat may arrive
  at the very instant of the pass that misses it.

Reading outside a string is undefined in the source; here it is the failure `OutOfRange`. A list
count of 2^31 or more overflows the `int` loop counter; here it is the failure `CountOverflow`. A
public key is the non-empty byte string that `Save` writes; decoding the empty one fails, as
BERDecode does. `hash` and `sig` of a transaction and `hash` and `solved` of a block do not travel,
so statements about decoded values speak of the wire fields (`Wire`), and of the hash where it is
determined.

## Model

| member | source | states |
|---|---|---|
| LittleEndian.ValueOfLE | src/tx.cpp:14-22 | reading back a fixed-width integer gives the value, when it fits the width |
| LittleEndian.LEOfValue | src/tx.cpp:41-54 | every byte string of a width is the encoding of the value it reads as |
| LittleEndian.LEWraps | src/tx.cpp:10-11 | a size or amount is kept only modulo 256^width |
| LittleEndian.LEDigits | src/tx.cpp:10-22 | the 1, 2, 4 and 8 bytes of an integer, least significant first |
| Wire.ReadString | src/tx.cpp:41-44 | a string that is read has a 32-bit size and its encoding is exactly what the cursor passes over |
| CountedList.CountedSound | src/tx.cpp:179-195 | any counted list that is read consists of representable elements and covers exactly its encoding |
| CountedList.CountedComplete | src/tx.cpp:132-146 | wherever the encoding of a representable list stands, reading returns that list and stops at its end |
| CountedList.ReadNFails | src/tx.cpp:184-186 | a failed element fails the whole list with its error |
| Transactions.InputExact | src/tx.cpp:6-58 | Tx_Input: the decoder returns x at a cursor iff x is representable and its encoding stands there |
| Transactions.InputRoundTrip | src/tx.cpp:6-58 | behind any prefix and before any suffix an input round-trips iff both sizes fit 32 bits |
| Transactions.OversizedInputAliases | src/tx.cpp:10-19 | beyond 32 bits the format is not prefix-free: a concrete pair |
| Transactions.OutputExact | src/tx.cpp:60-112 | Tx_Output: the same exactness at either coin width |
| Transactions.TxExact | src/tx.cpp:114-205 | Tx: the same exactness, with the hash of the whole string and no signature attached |
| Transactions.TxPrefixFree | src/tx.cpp:114-150 | serialization as written is injective on the wire fields and prefix-free, wherever every size, count and amount fits its field |
| Transactions.TxLengthExact | src/tx.cpp:114-150 | closed form of the length over both nested lists |
| Transactions.SerializeInput | src/tx.cpp:6-26 | the stream ends up as the format of the input |
| Transactions.SerializeOutput | src/tx.cpp:60-80 | the stream ends up as the format of the output, 8 bytes of coins |
| Transactions.SerializeTx | src/tx.cpp:114-150 | both loops append exactly the counted lists of the format |
| Transactions.DecodeInput | src/tx.cpp:28-58 | from the caller's cursor, or 0 without one: the parsed input, and the cursor at its end |
| Transactions.DecodeOutput | src/tx.cpp:82-112 | the same for an output, at width 4 as written |
| Transactions.DecodeTx | src/tx.cpp:157-205 | the same for a transaction, through both loops, with the hash of the string |
| RoundTrips.TxFitsMeans | src/tx.cpp:157-205 | representable means: lists below 2^31 elements, strings and keys below 2^32 bytes, at width 4 also amounts below 2^32 |
| RoundTrips.BlockFitsMeans | src/blockchain.cpp:66-140 | the same for a block: fewer than 2^31 transactions, each of them representable |
| RoundTrips.TxComesBack | src/tx.cpp:114-205 | below these limits a serialized transaction is read back at any cursor with every field, and the cursor stops at its end |
| RoundTrips.BlockComesBack | src/blockchain.cpp:21-140 | below these limits a serialized block is read back with every field and every transaction, whatever follows it |
| RoundTrips.InputCountRefused | src/tx.cpp:179-186 | an input count of 2^31 or more is the failure CountOverflow, whatever follows |
| RoundTrips.OutputCountRefused | src/tx.cpp:188-195 | the same for the output count, behind any representable inputs |
| RoundTrips.TxCountRefused | src/blockchain.cpp:114-121 | the same for a block's transaction count |
| RoundTrips.EmptyOriginRefused | src/tx.cpp:170-176 | a sender key of size 0 is the failure EmptyKey, whatever follows |
| RoundTrips.EmptyCoinbaseRefused | src/blockchain.cpp:131-133 | so is a coinbase key of size 0, once the transactions are read |
| Layout.InputLayout | src/tx.cpp:13-22 | size and bytes of both hashes, then the index: which field stands at which offset |
| Layout.OutputLayout | src/tx.cpp:64-76 | key size, key, index, amount, by offset |
| Layout.TxLayout | src/tx.cpp:120-146 | version, timestamp, key size, key, and both lists in order, each element behind those before it, by offset |
| Layout.HeadLayout | src/blockchain.cpp:25-51 | index, threshold, previous hash, nonce, timestamp, coinbase key and amount, by offset |
| Layout.BlockLayout | src/blockchain.cpp:53-60 | the transaction count and then each transaction in order, by offset |
| Truncation.TruncatedTx | src/tx.cpp:157-205 | every proper prefix of a serialized transaction fails, and fails for want of bytes |
| Truncation.BlockCut | src/blockchain.cpp:66-140 | a string that decodes, cut anywhere, either decodes to the same block or runs out of bytes: exactly when the cut is before the block's end |
| Truncation.TruncatedBlock | src/blockchain.cpp:66-140 | so every proper prefix of a serialized block fails for want of bytes |
| Blocks.BlockExact | src/blockchain.cpp:21-140 | DecodeBlock returns b iff b is representable, its transactions carry the string's hash, and the string begins with its encoding |
| Blocks.BlockRoundTrip | src/blockchain.cpp:21-140 | before any suffix, at the intended width: every wire field comes back and the cursor stops at the end, iff the block is representable |
| Blocks.BlockCanonical | src/blockchain.cpp:66-140 | whatever is decoded re-serializes to exactly the bytes that were read |
| Blocks.BlockPrefixFree | src/blockchain.cpp:21-64 | equal hash preimages mean equal contents, and no encoding is a proper prefix of another, wherever every value fits its field |
| Blocks.BlockAdvance | src/blockchain.cpp:66-140 | on a serialized block every checked read succeeds and the cursor advances by the closed-form length |
| Blocks.WireDecides | src/blockchain.cpp:21-64 | hashes and signatures of transactions never influence the bytes of a block |
| Blocks.Block.constructor | src/blockchain.cpp:11-19 | a new block has index, nonce and threshold 0 and the current time |
| Blocks.Block.Serialize | src/blockchain.cpp:21-64 | the stream ends up as the format of the block's current fields |
| Blocks.Block.Hash | src/blockchain.cpp:160-169 | the hash field becomes the digest of the current fields; nothing else changes |
| Blocks.DecodeBlock | src/blockchain.cpp:66-140 | a fresh block with the parsed record and its own hash, or the parser's failure |
| AsWritten.OutputDeficit | src/tx.cpp:76-108 | as written, an output decodes to its coins modulo 2^32 and leaves the cursor 4 bytes short |
| AsWritten.TxAsWritten | src/tx.cpp:82-205 | as written, a transaction round-trips iff it is representable with 32-bit amounts and has at most one output |
| AsWritten.TxsNarrow | src/blockchain.cpp:118-121 | along a list of transactions the two widths agree iff only the last has an output, and at most one |
| AsWritten.BlockAsWritten | src/blockchain.cpp:66-140 | as written, a block round-trips iff amounts are below 2^32, only the last transaction has an output, and at most one |
| AsWritten.ReserializesAsWritten | src/jc.cpp:19-23 | the equality that src/jc.cpp:21 compares holds as written for exactly those blocks |
| AsWritten.TwoOutputsFail | src/tx.cpp:82-112 | a concrete transaction with two outputs: representable, and decoding it as written fails on an empty key |
| AsWritten.EarlyOutputLost | src/blockchain.cpp:118-121 | a concrete block whose first transaction has an output: representable, and not what decoding as written returns |
| Signing.ConstructAndSign | src/tx.cpp:233-271 | succeeds iff there are inputs, outputs, and none to oneself; which error otherwise; every field of the transaction: the given lists and key, version 0, the time modulo 2^32, the digest of its own bytes and the signature of these and the digest |
| Signing.SignThenVerify | src/tx.cpp:227-271 | a transaction with such a signature verifies |
| Signing.SignThenDecode | src/tx.cpp:208-271 | the receiver gets back the very transaction, hash and signature included: iff representable at the intended width, iff also at most one output as written |
| Signing.DecodeAndVerify | src/tx.cpp:208-221 | succeeds iff the string parses and the check accepts it with its digest and the signature; then the parsed transaction with the signature; otherwise the parser's error or BadSignature |
| Signing.VerificationAgrees | src/tx.cpp:208-229 | for a string consumed whole and the decoded origin as key, DecodeAndVerify accepts iff Verify holds of the result |
| Signing.AgreementNeedsBoth | src/tx.cpp:208-229 | drop either condition and some lawful signature scheme makes the two disagree |
| JumboPacket.SerializeClientPoke | src/jumbopacket.cpp:51-61 | the six header bytes with type 1, size and address |
| JumboPacket.SerializeHeartbeat | src/jumbopacket.cpp:77-83 | the six header bytes with type 2, nothing else |
| JumboPacket.SerializeSimpleString | src/jumbopacket.cpp:96-107 | the six header bytes with type 3, size and text |
| JumboPacket.SerializeMinedBlock | src/jumbopacket.cpp:123-129 | the six header bytes with type 4 and the serialized block |
| JumboPacket.DecodePacketExact | src/jumbopacket.cpp:141-173 | DecodePacket returns d iff the string begins with the packet of a representable d |
| JumboPacket.PokeRoundTrip | src/jumbopacket.cpp:51-75 | a poke comes back, before any trailing bytes, iff its size fits 32 bits |
| JumboPacket.SimpleStringRoundTrip | src/jumbopacket.cpp:96-121 | the same for a simple string |
| JumboPacket.MinedBlockRoundTrip | src/jumbopacket.cpp:123-139 | a mined block comes back with its fields and hash: for representable blocks at the intended width, for those of BlockAsWritten as written |
| JumboPacket.KindsDisjoint | src/jumbopacket.cpp:51-129 | packets of different kinds never share a beginning |
| JumboPacket.ReadHeader | src/jumbopacket.cpp:22-37 | the low type byte when the high one is 0 and it is at most 5, otherwise CLIENT_NULL |
| JumboPacket.RefusalsExact | src/jumbopacket.cpp:146-169 | which byte strings DecodePacket refuses as too short, without the magic word, or of an unknown type (iff each) |
| JumboPacket.HeadersAgree | src/jumbopacket.cpp:22-173 | DecodePacket dispatches exactly the packets with the magic word that ReadHeader puts in 1..4, and to the same type |
| JumboPacket.HeaderOfSerialized | src/jumbopacket.cpp:22-37 | every serializer's output is read back under its own type |
| JumboPacket.HeaderAsDocumented | src/jumbopacket.cpp:19-37 | on which packets ReadHeader keeps its comment (iff), and that it never returns BROADCAST_TX |
| JumboPacket.HeaderIgnoresMagic | src/jumbopacket.cpp:28-35 | a packet without the magic word that is taken for a heartbeat |
| Miner.IsMined | src/mine.cpp:8-22 | true iff the threshold fits the hash and that many leading bytes are 48, the character '0' |
| Miner.MineBlock | src/mine.cpp:24-58 | ends within the interval, at the first attempt that succeeds or the last allowed; only nonce, timestamp and hash change; the hash is that of the block; one broadcast of its packet iff the hash starts with enough 48s |
| Miner.AttemptIs | src/mine.cpp:32-55 | attempt round * limit + nonce has that nonce, and the start's timestamp or the time read after the round before |
| Miner.StopsIs | src/mine.cpp:28-56 | where a call ends, digit by digit: no earlier attempt's hash starts with enough 48s, and this one's does unless it is the last allowed |
| Miner.MineAsConfigured | src/mine.cpp:24-58 | the call with the source's constants: the least solving nonce below 10000, or 9999; nothing else but the hash changes; the broadcast of the solved block's packet iff it solved |
| Miner.BroadcastMinedBlock | src/mine.cpp:60-65 | the sent log grows by the current block's packet to clients 0, 1, ... in order, up to the first that cannot be sent to |
| Miner.StopsOnce | src/mine.cpp:28-56 | there is exactly one attempt a call can end on |
| Miner.AsConfigured | src/mine.cpp:30-56 | the same about the attempts: the timestamp stands, and the nonce is the least solving one below 10000, or 9999 when none solves |
| Miner.MinedEndToEnd | src/mine.cpp:35-36 | what is mined and broadcast is still mined at the receiver, iff the block survives the codec |
| Connections.RemoveFirstIsWithout | src/tcp/src/tcp_server.cpp:63-76 | erasing the first match erases exactly that connection and keeps the order of the rest |
| Connections.WithoutAppend | src/tcp/src/tcp_server.cpp:63-76 | leaving out connections works piece by piece, so the order of the others is kept |
| Connections.TcpServer.AcceptClient | src/tcp/src/tcp_server.cpp:160-196 | the new connection is appended and returned; without one (timeout, failed accept) nothing changes and the client returned is not connected |
| Connections.TcpServer.DeleteClient | src/tcp/src/tcp_server.cpp:63-76 | the first client with the same descriptor and address is erased, the others keep their order; returns whether there was one |
| Connections.TcpServer.KillClient | src/tcp/src/tcp_server.cpp:23-28 | the client is marked disconnected, its descriptor closed, and it leaves the list |
| Connections.TcpServer.EndReceive | src/tcp/src/tcp_server.cpp:37-55 | the descriptor is closed and the client leaves the list if it was still in it |
| Connections.TcpServer.SendToAllClients | src/tcp/src/tcp_server.cpp:202-212 | the sent log grows by (descriptor, message) of clients 0, 1, ... in order, up to the first that fails; succeeds iff nobody does |
| Runs.RunKeepsInv | src/server.cpp:24-91 | over every interleaving: keys are addresses; map entries are marked connected and not closed by a visit, except the one a visit is killing; connections are listed once and closed by a visit at most once; every connection made is listed, hung up or taken out by a visit; every close is accounted for |
| Runs.BeatsExact | src/server.cpp:36-43 | the heartbeat map holds exactly the addresses recorded since the last clear |
| Visits.LookExact | src/server.cpp:36 | a look leads on to a kill iff no heartbeat of the address was recorded since the last clear |
| Visits.OnlySilentKilled | src/server.cpp:24-48 | over every run, whoever was closed by a visit was closed after a look that found the address silent since the last clear, and is the client that look found iff none was stored in between |
| Visits.EraseExact | src/server.cpp:31-40 | the erase drops an address with a heartbeat iff one was recorded since the look, and another entry than the look found iff one was stored since |
| Visits.EntryExact | src/server.cpp:31-40 | while nothing erases it, a map entry is the same connection iff nothing was stored over it |
| Visits.EntryClosedExact | src/tcp/src/tcp_server.cpp:37-55 | up to the close of its own visit, a map entry's descriptor is closed iff its receive task has ended; so a visit closes a closed descriptor exactly then |
| Visits.ClosedTwiceExact | src/tcp/src/tcp_server.cpp:23-55 | a descriptor is closed at most twice, and twice iff its receive task ended and a visit closed it |
| Visits.DeleteExact | src/tcp/src/tcp_server.cpp:23-28 | a visit takes out of the list the connection it closed iff none was stored for the address in between |
| Visits.StoredExact | src/server.cpp:86 | a stored connection is the map's entry iff since then none was stored over it and the address was not erased |
| Visits.OrphanExact | src/tcp/src/tcp_server.cpp:58-76 | a listed connection that is no longer the map's entry stays in the broadcast list, whatever the sweeps do, iff it does not hang up |
| Sweeps.VisitEffect | src/server.cpp:31-40 | an undisturbed visit keeps a client with a heartbeat and otherwise closes it and removes it from map and list |
| Sweeps.SweepFilters | src/server.cpp:28-43 | an undisturbed pass, in any order of visits, is a filter on clients and connections, and closes exactly the silent ones |
| Sweeps.HeartbeatEffect | src/server.cpp:157-159 | a heartbeat may arrive in any state and only records its address |
| Sweeps.HangUpEffect | src/tcp/src/tcp_server.cpp:37-55 | any connection that was made may end, once, listed or not |
| Sweeps.ClosesExact | src/server.cpp:28-41 | an undisturbed pass closes every silent client's descriptor once, and no other |
| Races.AcceptRace | src/server.cpp:86-87 | between the two writes of the accept loop a visit kills a client that never went silent: a concrete run |
| Races.LostClientRace | src/server.cpp:36-39 | a client that reconnects during the visit of its old connection is erased although it is listed, open and has a heartbeat: a concrete run |
| Races.KilledInMap | src/server.cpp:38-39 | inside every visit of a silent client there is a moment when the map holds a client that is disconnected and closed |
| Races.DoubleClose | src/tcp/src/tcp_server.cpp:23-55 | a client that hangs up stays in the map with its descriptor closed, and the sweep closes it again: a concrete run |
| Races.SplitVisit | src/tcp/src/tcp_server.cpp:23-28 | a store between close and removal leaves the closed connection listed and unlists the open one: a concrete run |
| Races.Reconnected | src/server.cpp:86 | two accepts from one address leave the first connection listed and out of the map: a concrete run |
| NodeServer.NServer.Accept | src/server.cpp:77-90 | the three steps of accepting, in sequence; the error and no change when there is no connection |
| NodeServer.NServer.ReceiveMessage | src/server.cpp:151-183 | by header type: 1 connects back to the sender's address, 2 records its heartbeat, 3 shows the string or fails, anything else is invalid; nothing else in the shared state changes |
| NodeServer.NServer.HangUp | src/tcp/src/tcp_server.cpp:37-55 | the end of a receive task is the hang-up step: it closes the descriptor, the list forgets the client, the map does not |
| NodeServer.NServer.HasClientWithIP | src/server.cpp:51-58 | true iff the address is a key |
| NodeServer.NServer.Sweep | src/server.cpp:26-43 | the erase-while-iterating loop is a run of visits and a clear, closes each silent client's descriptor once and no other, and leaves exactly the clients with a heartbeat and takes exactly the silent clients' connections off the list |
| TimedRuns.LookFinds | src/client.cpp:60-71 | while period plus delay is below the sleep, every look at a live client finds a heartbeat |
| TimedRuns.KeptAlive | src/client.cpp:60-71 | so no visit of it goes past its look, and it is in the map at every later moment, statement by statement |
| TimedRuns.KeepAliveExact | src/client.cpp:60-71 | and this bound is exact: from period plus delay equal to the sleep on, a run evicts a live client all of whose heartbeats, the first included, arrive in time |
| TimedRuns.DelayBudget | src/client.cpp:69 | with the period of the source the tolerated delay is below K - ceil(K/3); for K = 10, up to 5 |
| TimedRuns.StaleEvicted | src/server.cpp:26-44 | a client that is silent for more than two rounds of pass and sleep is no longer connected |
| TimedRuns.StalenessTight | src/server.cpp:26-44 | two rounds are needed: a run in which it is still there when the second pass is due |

## Left out

- Sockets, threads, sleeping, console output, files and the local address: I/O. One receive callback is one whole packet, so the 4096-byte receive buffer is not modelled.
- CryptoPP: SHA-256, DSA and key encoding are parameters. A key is any non-empty byte string, so malformed or non-canonical DER is not modelled.
- The terminating NUL behind `c_str()`: a read that includes it counts as out of range.
- Connection ids stand for descriptors and are never reused; pointers into `m_clients`, `Client` destructors and thread handles are not modelled.
- Data races inside one statement: each statement is atomic, and a receive task's end (flag, close, delete) is one. `NServer` methods are uninterrupted sequences of steps; `Runs` has the interleavings of the accept loop, the receive callbacks and the sweep.
- A receive task holds a pointer into `m_clients`, which erasing shifts or invalidates; here it always means its own connection.
- TimedRuns.KeptAlive: a client has joined when its accept is over, it is in the map and no visit of its address is under way; `Races.AcceptRace` and `Races.LostClientRace` are what happens otherwise.
- TimedRuns.StaleEvicted: that a pass of `std::map` iterators visits every key that is there throughout is assumed (`PassesComplete`), and so is an upper bound on one round of pass and sleep.
- The connected flag of the client that a failed `acceptClient` returns is not initialised in the source; it is read as false, as the caller's check intends.
- Observers of the TCP server, `finish` and `printClients`.
- `EncodedPacket::targets` and `NodeServer::SendMessage`, which sends to chosen clients.
- What follows a reaction to a message (printing, connecting back), the peer list, the client's receive loop, and the loop around `keep_alive`; only its period is used.
- Empty or constant functions: `AddBlock`, `AcceptBlock`, `IsValidBlock`, `IsValidChain`, `IsSolved`, `Mine`, `BroadcastTx`, the mempool.
- The `messageLength` field of docs/jumbopacket.txt: no serializer writes it.
