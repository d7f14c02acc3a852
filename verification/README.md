# Clash transport, cache and configuration logic in Dafny

A verification model of the logic under `local/clash`: the ShadowsocksR stream protocols, the fake-IP
pool and the LRU cache below it, the proxy-group sort, the domain trie, the buffered record streams, two
small concurrency protocols, three arithmetic refinements and the SOCKS5 handshake. Code that works step
by step is modelled by classes and loops proved against specification functions (`*_spec.dfy`); the main
results are lemmas about those functions, for all inputs, all runs or all interleavings.

## How the model is built

- **Streams** (`framing.dfy`). A decoder in a loop over a receive buffer is a *judge*: it looks at the
  front of the buffer and says incomplete, refused or accepted. If a verdict other than incomplete is
  final, chunking is irrelevant and a receiver that recognises every frame follows its sender. The SSR
  protocols, the TLS-ticket records and the VMess records are instances.
- **auth_chain** (`prng.dfy`, `auth_chain_spec.dfy`, `auth_chain_stream.dfy`, `auth_chain.dfy`). An end's
  state is the stored hash *without its first two bytes*, the keystream position and the packet number.
  Seeding the generator overwrites just those two bytes, which is why stopping at an incomplete frame is
  idempotent. The comparison `recvID == 1` is made for every frame: the two bytes are dropped again when the 32-bit
  counter comes round, so the round trip holds if and only if there are at most 2^32 frames.
- **auth_aes128_sha1 and auth_sha1_v4** (`auth_frames_spec.dfy`, `auth_frames.dfy`) share one format with
  two byte orders and two checksum functions. `ssr_conn.dfy` is the reader in front of any of them.
- **LRU cache and fake-IP pool** (`linked_list.dfy`, `lru_spec.dfy`, `lru_recency.dfy`,
  `lru_expiry.dfy`, `lru_cache.dfy`, `fakeip_spec.dfy`, `fakeip_ring.dfy`, `fakeip_pool.dfy`). The cache refines a sequence of entries, which `lru_recency.dfy`
  shows to be in recency order in every run, ageing included; `lru_expiry.dfy` says what gets answer
  then. `fakeip_ring.dfy` is about the order in which addresses come up. The pool's cache is shown
  to be a flattened sequence of host/address pairs. The range of addresses begins at the gateway,
  which is handed out when everything after the offset is in use.
- **Proxy groups** (`dag_spec.dfy`, `dag_sort.dfy`, `group_build.dfy`): the sort in place, the loop
  locator, construction in sorted order, relay unwrapping. Proxies are objects that refer to one another;
  that unwrapping ends is proved from the topological index. All lookups in the graph map are proved to
  find their node, so neither peel meets a node that has been deleted.
- **Domain trie** (`trie_spec.dfy`, `trie_patterns.dfy`, `domain_trie.dfy`): specified over the paths that
  exist, so that interior nodes shadow wildcards as they do in the code; `trie_patterns.dfy` says what a
  pattern covers.
- **Records** (`vmess_spec.dfy`, `vmess.dfy`, `tls_ticket_spec.dfy`, `tls_ticket.dfy`, `trojan_spec.dfy`,
  `trojan.dfy`): partial reads are specified by conservation of what is still to be delivered.
- **Concurrency** (`dial_race.dfy`, `single_do.dfy`): step relations; every interleaving is a run. The
  cached result of a `Do` is read after the mutex is released, value and error in separate steps, so the
  two may stem from different calls: each is shown to be fresh, and they belong together if and only if
  no call finishes in between.
- **Arithmetic and handshake** (`murmur_spec.dfy`, `murmur.dfy`, `load_balance.dfy`, `socks5_addr.dfy`,
  `socks5_handshake.dfy`). Both sides of the handshake are programs that wait for a number of bytes; all
  interleavings of their reads are considered.

Beside the round trips, lemmas named after the wire say byte by byte what is sent and checked, so that
both ends agreeing on something else would not do. Integers are unbounded and wrap-around is written out. HMAC, CRC, Adler, AEAD ciphers and keystreams are
arbitrary functions with the lengths and inverses they promise; random sources, clocks and the network are
parameters. Floats are reals.

## Model

| member | source | states |
|---|---|---|
| `Framing.DecodeInTwo` | local/clash/transport/ssr/protocol/auth_chain_a.go:96-144 | Decoding a buffer in two passes, the second over what the first left plus what arrived since, is decoding it in one; a failure in the first pass settles the outcome |
| `Framing.LeftoverIsSettled` | local/clash/transport/ssr/protocol/auth_chain_a.go:117-119 | The break at an incomplete frame is idempotent: another pass over what it leaves changes neither state nor buffer |
| `Framing.ChunkingIsIrrelevant` | local/clash/transport/ssr/protocol/stream.go:17-35 | For every stream, good or bad, the output, the leftover, the final state and the failure do not depend on how the bytes were cut into reads |
| `Framing.ReceiverFollowsSender` | local/clash/transport/ssr/protocol/auth_chain_a.go:96-144 | A receiver that recognises each frame in the state the sender was in delivers all payloads in order and ends in the sender's state with an empty buffer |
| `Framing.FrameInStream` | local/clash/transport/ssr/protocol/stream.go:37-50 | Where a frame of a run stands in the stream, and in which state it is made |
| `Framing.ChunkedRoundTrip` | local/clash/transport/ssr/protocol/stream.go:17-50 | Encoder, network and decoder together: the frames of a run, cut into any chunks, give back the payloads and the sender's final state |
| `Framing.DeliveredSoFar` | local/clash/transport/ssr/protocol/stream.go:28-33 | While a good stream is still arriving nothing fails and the output so far is a prefix of the whole stream's |
| `Prng.XorShift128Plus.Next` | local/clash/transport/ssr/tools/random.go:14-22 | In-place step of the two state words and the number drawn, modulo 2^64 |
| `Prng.StepBits` | local/clash/transport/ssr/tools/random.go:14-22 | The step bit by bit: which bits of the old words each new bit is the exclusive or of; the number drawn is the sum of the new words |
| `Prng.StepIsInjective` | local/clash/transport/ssr/tools/random.go:14-22 | No two states step to the same one |
| `Prng.SeedIsFourSteps` | local/clash/transport/ssr/tools/random.go:53-56 | Seeding makes four steps from the sixteen bytes of length and hash |
| `Prng.SeedsDiffer` | local/clash/transport/ssr/tools/random.go:40-57 | The seed of a frame is decided by its length and the last fourteen bytes of the hash, and decides both |
| `ByteCodec.XorBit` | local/clash/transport/ssr/tools/random.go:18-19 | A bit of an exclusive or is set exactly when it is set in one of the two numbers |
| `Prng.XorShift128Plus.InitFromBin` | local/clash/transport/ssr/tools/random.go:24-38 | Loads the two words, or panics exactly for slices shorter than 16 bytes |
| `Prng.XorShift128Plus.InitFromBinAndLength` | local/clash/transport/ssr/tools/random.go:40-57 | Overwrites the first two bytes of the caller's slice with the length, keeps the other bytes, and leaves a state that does not depend on the two bytes overwritten; panics exactly for a slice of fewer than two bytes or a capacity below 16, which is what is loaded from |
| `AuthChain.SortInts` | local/clash/transport/ssr/protocol/auth_chain_b.go:62-65 | A sorted list with the same entries |
| `AuthChain.Search` | local/clash/transport/ssr/protocol/auth_chain_b.go:73-84 | Binary search finds the first entry that is big enough, or the length |
| `AuthChain.Protocol.InitDataSize` | local/clash/transport/ssr/protocol/auth_chain_b.go:50-66 | Both size lists are filled from the generator seeded with the key, sorted, not empty, below 1440, and with the entries it yields; a key shorter than 16 bytes makes it panic |
| `AuthChain.SortedIsDetermined` | local/clash/transport/ssr/protocol/auth_chain_b.go:59-65 | Two sorted lists with the same entries are the same list |
| `AuthChain.BothEndsAgree` | local/clash/transport/ssr/protocol/auth_chain_b.go:50-66 | Both ends draw the same two lists: the key decides them |
| `AuthChain.WhatIsDrawn` | local/clash/transport/ssr/protocol/auth_chain_b.go:54-65 | The lists hold 4 to 11 and 8 to 23 numbers, drawn one after the other |
| `AuthChain.Protocol.GetRandLengthA` | local/clash/transport/ssr/protocol/auth_chain_a.go:284-299 | The padding count is a function of the length and of the hash without its first two bytes, and of the stored hash only those two bytes change |
| `AuthChain.Protocol.GetRandLengthB` | local/clash/transport/ssr/protocol/auth_chain_b.go:68-97 | The same for the list-based padding |
| `AuthChain.Protocol.PickSize` | local/clash/transport/ssr/protocol/auth_chain_b.go:73-90 | Which listed size, second-list size, zero or tail draw is taken, against the specification of the draw |
| `AuthChain.Protocol.DrawLayout` | local/clash/transport/ssr/protocol/auth_chain_a.go:107-108 | Padding count and data offset depend on the stored hash through its last fourteen bytes only, which stay as they are |
| `AuthChain.Protocol.EncryptInPlace` | local/clash/transport/ssr/protocol/auth_chain_a.go:244 | The caller's slice is encrypted in place, byte by byte with the next keystream bytes, and nothing else changes |
| `AuthChain.Protocol.PackData` | local/clash/transport/ssr/protocol/auth_chain_a.go:243-275 | One frame is appended; hash, keystream position and packet number move to the values a receiver of that frame will have; the stored hash becomes the HMAC of the frame without its last two bytes, keyed with the packet number before |
| `AuthChain.Protocol.Encode` | local/clash/transport/ssr/protocol/auth_chain_a.go:146-161 | A write is cut into pieces of 2800, each framed from where the last one stopped; the caller's bytes end up encrypted |
| `AuthChain.Protocol.DecodeFrame` | local/clash/transport/ssr/protocol/auth_chain_a.go:101-142 | One turn of the loop reaches the specified verdict; without an accepted frame hash tail, keystream position and packet number are as before, although the stored hash was written to; with one, the stored hash becomes the HMAC over the received bytes of the frame |
| `AuthChain.Protocol.Decode` | local/clash/transport/ssr/protocol/auth_chain_a.go:96-144 | The loop consumes the complete frames and leaves the rest; on an error it empties the buffer and passes bytes through raw from then on |
| `AuthChainSpec.PaddedFits` | local/clash/transport/ssr/protocol/auth_chain_a.go:111-115 | No frame with at most 2800 bytes of data reaches the 4096 gate, for either padding method, any hash and any draw |
| `AuthChainSpec.JudgeFrame` | local/clash/transport/ssr/protocol/auth_chain_a.go:117-141 | A frame is recognised at its exact size, whatever follows it, with the data and the next state; a frame numbered 1 with fewer than two bytes makes the decoder panic |
| `AuthChainSpec.JudgeIsFinal` | local/clash/transport/ssr/protocol/auth_chain_a.go:107-126 | No verdict other than incomplete is changed by bytes that arrive later |
| `AuthChainSpec.VerdictsMean` | local/clash/transport/ssr/protocol/auth_chain_a.go:101-142 | When the decoder waits, and of what it complains, by the unmasked length and its padding |
| `AuthChainSpec.HashMovesOn` | local/clash/transport/ssr/protocol/auth_chain_a.go:268-275 | The last two bytes of a frame begin the HMAC over the bytes before them, keyed with the packet number; the rest of it is the next hash; position and number move on |
| `AuthChainSpec.ReceivedHashMovesOn` | local/clash/transport/ssr/protocol/auth_chain_a.go:117-139 | An accepted frame moves the receiver on to the HMAC over what it was sent |
| `AuthChainSpec.FrameOnTheWire` | local/clash/transport/ssr/protocol/auth_chain_a.go:243-275 | The length is masked with bytes 14 and 15 of the hash; each byte of the data stands at its drawn place, encrypted with its own keystream byte |
| `AuthChainSpec.PaddingOfA` | local/clash/transport/ssr/protocol/auth_chain_a.go:284-308 | Count and place of the padding by the length of the data and the numbers drawn |
| `AuthChainSpec.PaddingOfB` | local/clash/transport/ssr/protocol/auth_chain_b.go:68-97 | Which listed size is padded up to, and what happens past the end of each list |
| `AuthChainStream.ReceiverPanicsOrFollows` | local/clash/transport/ssr/protocol/auth_chain_a.go:96-144 | For every run of frames: if each frame numbered 1 has two bytes to strip, the receiver delivers the payloads and follows the sender; if not, it panics |
| `AuthChainStream.OnlyTheFirstTwoBytesAreLost` | local/clash/transport/ssr/protocol/auth_chain_a.go:135-140 | A session numbered from 1 delivers everything but its first two bytes if and only if it has at most 2^32 frames: after the counter has come round two more bytes are lost |
| `AuthChainStream.CutAllKeepsBytes` | local/clash/transport/ssr/protocol/auth_chain_a.go:153-159 | Cutting loses no byte and every piece has 1 to 2800 bytes |
| `AuthChainStream.CutIsFull` | local/clash/transport/ssr/protocol/auth_chain_a.go:153-159 | All frames of a write but the last carry 2800 bytes |
| `AuthChainStream.HashIsLastDigest` | local/clash/transport/ssr/protocol/auth_chain_a.go:243-275 | After every non-empty run the hash is that of the last frame on the wire, keyed with that frame's number, which is the first one plus the frames before it, modulo 2^32 |
| `AuthChainStream.StreamRoundTrip` | local/clash/transport/ssr/protocol/auth_chain_a.go:96-161 | Main result: any writes in any chunks arrive as written without the first two bytes, and both ends agree on hash, keystream position and packet number afterwards |
| `AuthFramesSpec.RecognisedIffShort` | local/clash/transport/ssr/protocol/auth_aes128_sha1.go:93-136 | A data frame, of either protocol, is understood at its exact size whatever follows it if and only if it is shorter than 8192 bytes |
| `AuthFramesSpec.PaddingSaysItsLength` | local/clash/transport/ssr/protocol/auth_aes128_sha1.go:268-277 | The padding prefix, of one byte or of three, tells the decoder where the data starts |
| `AuthFramesSpec.EveryDrawFits` | local/clash/transport/ssr/protocol/auth_aes128_sha1.go:206-225 | Whatever the random source yields, a frame of at most 8100 bytes has a length in [7, 8192) |
| `AuthFramesSpec.JudgeIsFinal` | local/clash/transport/ssr/protocol/auth_sha1_v4.go:46-75 | No verdict other than incomplete is changed by bytes that arrive later |
| `AuthFramesSpec.CutIsShortAndKeepsBytes` | local/clash/transport/ssr/protocol/auth_aes128_sha1.go:146-152 | Cutting a write loses no byte and makes frames of admissible length only |
| `AuthFramesSpec.CutIsFull` | local/clash/transport/ssr/protocol/auth_aes128_sha1.go:146-152 | All frames of a write but the last carry 8100 bytes |
| `AuthFramesSpec.FrameOnTheWire` | local/clash/transport/ssr/protocol/auth_aes128_sha1.go:170-195 | A frame byte by byte: length and its checksum keyed with the frame's number, padding that says how long it is, data, checksum of all before; for auth_sha1_v4 the same with its own checksums and byte order |
| `AuthFramesSpec.AcceptedOnTheWire` | local/clash/transport/ssr/protocol/auth_aes128_sha1.go:98-134 | What has been checked of an accepted frame, and the number that follows |
| `AuthFramesSpec.VerdictsMean` | local/clash/transport/ssr/protocol/auth_aes128_sha1.go:98-134 | When the decoder waits, and of what it complains, by the length the frame states |
| `AuthFramesSpec.NumberInStream` | local/clash/transport/ssr/protocol/auth_aes128_sha1.go:176-176 | After a run the number is the first one plus the frames, modulo 2^32; auth_sha1_v4 has none |
| `AuthFramesSpec.PaddingLimits` | local/clash/transport/ssr/protocol/auth_aes128_sha1.go:206-225 | The draws by length of data and write: to some part of a packet of 1451 bytes, or two of 1460 more, below 32 beyond, and nothing in large writes; auth_sha1_v4 pads below 512, below 256 or not at all |
| `AuthFramesSpec.StreamRoundTrip` | local/clash/transport/ssr/protocol/auth_aes128_sha1.go:93-154 | Main result for both protocols: any writes in any chunks arrive as written, and recvID ends where packID does |
| `AuthAes128.Protocol.PackRandData` | local/clash/transport/ssr/protocol/auth_aes128_sha1.go:268-277 | Padding with a one-byte or a three-byte prefix |
| `AuthAes128.Protocol.PackData` | local/clash/transport/ssr/protocol/auth_aes128_sha1.go:170-195 | Appends exactly one frame, checksums taken over the right bytes of the growing buffer, and counts it |
| `AuthAes128.Protocol.Encode` | local/clash/transport/ssr/protocol/auth_aes128_sha1.go:138-154 | A write is cut into pieces of 8100, each framed with the next number |
| `AuthAes128.Protocol.DecodeFrame` | local/clash/transport/ssr/protocol/auth_aes128_sha1.go:98-134 | One turn of the loop reaches the specified verdict and counts accepted frames |
| `AuthAes128.Protocol.Decode` | local/clash/transport/ssr/protocol/auth_aes128_sha1.go:93-136 | The loop; a wrong length checksum empties the buffer but does not switch decoding off, the other two errors do |
| `AuthSha1V4.Protocol.PackRandData` | local/clash/transport/ssr/protocol/auth_sha1_v4.go:163-172 | Padding with a one-byte or a three-byte prefix, big-endian |
| `AuthSha1V4.Protocol.PackData` | local/clash/transport/ssr/protocol/auth_sha1_v4.go:107-126 | Appends exactly one frame |
| `AuthSha1V4.Protocol.Encode` | local/clash/transport/ssr/protocol/auth_sha1_v4.go:80-98 | A write is cut into pieces of 8100 |
| `AuthSha1V4.Protocol.DecodeFrame` | local/clash/transport/ssr/protocol/auth_sha1_v4.go:46-75 | One turn of the loop; checksums compared as numbers, as the source does, which is comparing their bytes |
| `AuthSha1V4.Protocol.Decode` | local/clash/transport/ssr/protocol/auth_sha1_v4.go:41-78 | The loop, with the same error behaviour |
| `SsrConn.Conn.Read` | local/clash/transport/ssr/protocol/stream.go:17-35 | After every read the bytes that came in are accounted for by those passed on, those decoded and those pending; a decoder failure is reported exactly when one pass over all bytes fails, and after one that switches decoding off bytes are passed on as they are |
| `SsrConn.ReadsYieldPayloads` | local/clash/transport/ssr/protocol/stream.go:17-35 | Reads of any sizes over any chunks yield the payloads in order, nothing lost and nothing twice |
| `SsrConn.Reads` | local/clash/transport/ssr/protocol/stream.go:17-35 | Any reads on a sender's stream, however its bytes come in: what has been read is a prefix of the payloads, the only error is the end of the stream, once all has been delivered, and a reader that has drained it has the sender's state |
| `SsrConn.GoodStreamsDoNotFail` | local/clash/transport/ssr/protocol/stream.go:29-32 | No beginning of a stream that a sender can produce makes a reader fail |
| `LinkedList.List.PushBack` | local/clash/common/cache/lrucache.go:133-139 | The new element comes last, the others stay in order (container/list) |
| `LinkedList.List.Remove` | local/clash/common/cache/lrucache.go:210-212 | The element is gone, the others stay in order |
| `LinkedList.List.MoveToBack` | local/clash/common/cache/lrucache.go:131-131 | The element comes last, the others stay in order |
| `LruCache.LruCache.KeyAgrees` | local/clash/common/cache/lrucache.go:55-65 | Map and list agree at all times: a key is in the map exactly when an entry has it, and the map leads to that entry's list element |
| `LruCache.LruCache.SetWithExpire` | local/clash/common/cache/lrucache.go:126-147 | Refines the specified set: update and move, or append and evict over the bound, then purge expired entries from the old end |
| `LruCache.LruCache.Set` | local/clash/common/cache/lrucache.go:116-122 | The same with the expiry computed from the age limit |
| `LruCache.LruCache.Get` | local/clash/common/cache/lrucache.go:83-91 | Refines the specified get; in particular an entry of the key that is not out of date is answered, and one that is, is not |
| `LruCache.LruCache.Exist` | local/clash/common/cache/lrucache.go:107-113 | Whether an entry has the key; nothing is touched |
| `LruCache.LruCache.Delete` | local/clash/common/cache/lrucache.go:191-199 | Refines the specified delete |
| `LruCache.LruCache.MaybeDeleteOldest` | local/clash/common/cache/lrucache.go:201-208 | Drops entries from the old end as long as the oldest has expired |
| `LruCache.LruCache.DeleteElement` | local/clash/common/cache/lrucache.go:210-217 | One entry leaves map and list, and the callback is called with its key and value |
| `LruCache.LruCache.CloneTo` | local/clash/common/cache/lrucache.go:150-164 | The target gets the same entries in the same order in list elements of its own; the entry objects are shared; it is within its own bound if and only if the source has no more entries than that |
| `LruSpec.OverfullStays` | local/clash/common/cache/lrucache.go:133-142 | A cache that does not age and holds more than its bound, as CloneTo can leave it, keeps its size through every set and get: a set drops one entry, whatever the excess |
| `LruSpec.SetKeepsInvariants` | local/clash/common/cache/lrucache.go:126-147 | Keys stay unique; the bound holds after if it held before; every entry, the one replaced aside, is kept or handed to the callback exactly once |
| `LruSpec.GetKeepsInvariants` | local/clash/common/cache/lrucache.go:166-188 | The same for get |
| `LruSpec.DeleteKeepsInvariants` | local/clash/common/cache/lrucache.go:191-199 | The same for delete |
| `LruSpec.EveryPairIsAccountedFor` | local/clash/common/cache/lrucache.go:126-217 | Over every run of sets, gets and deletes, with any options and clock readings: keys are unique, the bound holds, and with a callback every pair ever set is held, was overwritten, or has been handed to the callback, exactly once |
| `LruSpec.HoldsTheMostRecent` | local/clash/common/cache/lrucache.go:126-199 | Over every run of a cache whose entries do not leave by age, being without an age limit or returning stale ones, the keys held are the most recent of those touched and not deleted since, in recency order; without deletes they are as many as the bound allows |
| `LruRecency.EntriesAreByRecency` | local/clash/common/cache/lrucache.go:126-217 | Over every run, with any options and clock readings, ageing included: the entries stand in the order in which their keys were last set or got |
| `LruRecency.FullCacheEvictsLeastRecent` | local/clash/common/cache/lrucache.go:133-143 | After any run, a new key set on a full cache evicts for its size exactly the entry whose key was last set or got longest ago, and hands it to the callback |
| `LruSpec.HoldsLatestValues` | local/clash/common/cache/lrucache.go:126-217 | Over every run each entry holds the value last set for its key |
| `LruExpiry.GetAnswers` | local/clash/common/cache/lrucache.go:166-188 | A get answers if and only if an entry of the key is not out of date, with that entry, refreshed if the option says so, which becomes the most recent; one out of date leaves |
| `LruExpiry.GetsInRuns` | local/clash/common/cache/lrucache.go:83-188 | Over every run, with any options and clock readings: a get answers if and only if an entry of the key is held and its latest expiry, from the last set or refreshing get, is not over; and with the value last set |
| `LruExpiry.WhatSetLeaves` | local/clash/common/cache/lrucache.go:126-147 | After a set the entry is last, the others in order, one fewer over the bound, and then without those at the old end that are out of date |
| `LruExpiry.StaleGetPurges` | local/clash/common/cache/lrucache.go:175-180 | A get that finds its entry out of date drops it, and with it what else is out of date at the old end |
| `LruExpiry.PurgeIsExact` | local/clash/common/cache/lrucache.go:201-208 | From the old end entries out of date are dropped, up to the first that is not |
| `LruExpiry.PurgeReports` | local/clash/common/cache/lrucache.go:210-217 | The callback is told of each entry dropped, in order |
| `LruExpiry.WhoIsHeld` | local/clash/common/cache/lrucache.go:126-199 | Who is in the cache after a set, a get or a delete |
| `LruExpiry.StaysAway` | local/clash/common/cache/lrucache.go:166-199 | A key that is not held stays away until it is set |
| `FakeIpSpec.AddressRoundTrip` | local/clash/component/fakeip/pool.go:113-123 | Number to address to number is the identity |
| `FakeIpSpec.IpRoundTrip` | local/clash/component/fakeip/pool.go:113-123 | Address to number to address is the identity |
| `FakeIpSpec.EntriesAreInverse` | local/clash/component/fakeip/memory.go:14-47 | In a cache of whole pairs the host entry leads to an address exactly when the address entry leads back to the host |
| `FakeIpSpec.TouchingBoth` | local/clash/component/fakeip/memory.go:14-42 | Getting by one key and touching the other moves the whole pair to the recent end |
| `FakeIpSpec.AddingBoth` | local/clash/component/fakeip/pool.go:109-109 | Putting the two entries of a new pair into a full cache evicts exactly one whole pair, the least recent one |
| `FakeIpSpec.HandsOutFreeAddress` | local/clash/component/fakeip/pool.go:94-111 | With fewer hosts than addresses the scan around the ring stops at an address nobody has |
| `FakeIpSpec.LookupKeepsInv` | local/clash/component/fakeip/pool.go:35-45 | The pairs stay a bijection within the range and the bound; a known host gets its address, a new one an address that was free |
| `FakeIpSpec.LookBackKeepsInv` | local/clash/component/fakeip/pool.go:48-57 | The same for look-back, which finds a host exactly for addresses in use |
| `FakeIpSpec.LookBackInvertsLookup` | local/clash/component/fakeip/pool.go:35-57 | Looking back the address just handed out gives the host |
| `FakeIpSpec.GatewayIsHandedOutIff` | local/clash/component/fakeip/pool.go:94-111 | A new host is handed min - 1, the gateway, if and only if nobody has it and every address after the offset is in use |
| `FakeIpSpec.To4Means` | local/clash/component/fakeip/pool.go:48-50 | IPv4 addresses are four bytes, or sixteen that begin with ten zeros and two bytes of 255 |
| `FakeIpSpec.NumberOfAddress` | local/clash/component/fakeip/pool.go:113-123 | The number of an address has its first byte highest |
| `FakeIpRing.OffsetFollowsAddress` | local/clash/component/fakeip/pool.go:94-111 | A new host gets the first free address behind the offset, going round, and the offset moves there |
| `FakeIpRing.OffsetStays` | local/clash/component/fakeip/pool.go:35-57 | A known host and looking back leave the offset and the addresses in use |
| `FakeIpRing.AheadIsModulo` | local/clash/component/fakeip/pool.go:97-97 | The ring is counted modulo the number of addresses |
| `FakeIpRing.AddressesComeUpLate` | local/clash/component/fakeip/pool.go:94-111 | Over every run an address once handed out does not go to a new host before at least as many others have been handed out as the ring has addresses beyond Size |
| `FakeIpSpec.KeepsAddress` | local/clash/common/cache/lrucache.go:126-147 | Over every run a host keeps its address while fewer than Size other hosts are touched |
| `FakeIpSpec.SameAddressAgain` | local/clash/component/fakeip/pool.go:35-45 | So a later lookup of the host returns the same address |
| `FakeIpPool.MemoryStore.GetByHost` | local/clash/component/fakeip/memory.go:14-24 | Returns the pair's address and touches both entries of one cache |
| `FakeIpPool.MemoryStore.GetByIP` | local/clash/component/fakeip/memory.go:32-42 | Returns the pair's host and touches both entries |
| `FakeIpPool.MemoryStore.PutByHost` | local/clash/component/fakeip/memory.go:27-29 | One half of a pair, as a set of the shared cache |
| `FakeIpPool.MemoryStore.PutByIP` | local/clash/component/fakeip/memory.go:45-47 | The other half |
| `FakeIpPool.MemoryStore.Exist` | local/clash/component/fakeip/memory.go:50-52 | Whether an address is in use, without touching it |
| `FakeIpPool.Pool.Lookup` | local/clash/component/fakeip/pool.go:35-45 | The class refines the specified lookup; its cache is at all times a sequence of adjacent whole pairs; a new host's address is the one at the new offset, and otherwise the offset stays |
| `FakeIpPool.Pool.Advance` | local/clash/component/fakeip/pool.go:94-107 | The loop stops at the first free offset or where it started |
| `FakeIpPool.Pool.Allocate` | local/clash/component/fakeip/pool.go:94-111 | The address at that offset is recorded for the host |
| `FakeIpPool.Pool.LookBack` | local/clash/component/fakeip/pool.go:48-57 | The class refines the specified look-back; other than IPv4 addresses are turned away |
| `FakeIpPool.Pool.Exist` | local/clash/component/fakeip/pool.go:68-77 | Whether the address is one of the pairs' |
| `FakeIpPool.Create` | local/clash/component/fakeip/pool.go:139-168 | No pool exactly for masks that leave no address; otherwise min is the network address plus 2 and the gateway one less |
| `DagSort.BuildGraph` | local/clash/config/utils.go:21-62 | The graph has a node for every name; its degrees are the numbers of listings; a decoding error or a second group of a name ends it |
| `DagSort.Sort` | local/clash/config/utils.go:64-95 | The first peel writes the groups into the slice so that every listed group comes before the one that lists it, and leaves a node exactly when there is a cycle |
| `DagSort.LinkBack` | local/clash/config/utils.go:104-121 | The back links and out-degrees count, for every remaining node, who lists it |
| `DagSort.Strip` | local/clash/config/utils.go:122-138 | The second peel takes out nodes that list nothing that remains |
| `DagSort.Locate` | local/clash/config/utils.go:101-147 | What is left is not empty, contains every cycle, and each name in it has a lister and a listed name in it |
| `DagSort.ProxyGroupsDagSort` | local/clash/config/utils.go:21-148 | For distinct names: sorted if and only if the reference graph is acyclic, and then the slice is a permutation of the input in dependency order; otherwise the names reported locate the loops; errors leave the slice as it was |
| `DagSpec.ClosedBackwardsHasCycle` | local/clash/config/utils.go:97-100 | A finite set in which every name is listed by a name of the set has a cycle |
| `DagSpec.OrderedIsAcyclic` | local/clash/config/utils.go:86-95 | Groups in dependency order have no cycle |
| `GroupBuild.GetProxies` | local/clash/adapter/outboundgroup/parser.go:132-142 | Succeeds if and only if every name is known, with the named proxies in order; otherwise names one that is not |
| `GroupBuild.GetProviders` | local/clash/adapter/outboundgroup/parser.go:144-158 | Succeeds if and only if every name is that of a parsed provider |
| `GroupBuild.ParseProxyGroup` | local/clash/adapter/outboundgroup/parser.go:34-130 | A group is made if and only if its options are acceptable and its members known, otherwise the failure returned is the first, in the order of the source, that is there; a group made refers to what its members name |
| `GroupBuild.ParseGroups` | local/clash/config/config.go:336-349 | Construction succeeds if and only if every group, at its turn, is acceptable, has a name not taken, and lists known names only; otherwise the failure is one of the first group of which this is not so |
| `GroupBuild.SortedGroupsBuild` | local/clash/config/config.go:310-349 | In sorted order it succeeds if and only if every member exists at all and every group is acceptable by itself |
| `GroupBuild.ParseProxies` | local/clash/config/config.go:310-349 | From sorting to construction: built if and only if names are distinct, references acyclic, members existing and groups acceptable, whatever order they are written in; sorting fails exactly for repeated names, cycles and undecodable entries |
| `GroupBuild.MembersAreLower` | local/clash/adapter/outboundgroup/relay.go:89-101 | A member of a constructed group stands at a name of lower topological index |
| `GroupBuild.CandidatesAreLower` | local/clash/adapter/outboundgroup/relay.go:89-101 | Whatever a group can select, a member or a proxy of one of its providers, has a lower place in the order than the group; and there always is something to select |
| `GroupBuild.ChainsAreShort` | local/clash/adapter/outboundgroup/relay.go:89-101 | Any chain of proxies, each a member of the one before or offered by one of its providers, has at most one entry more than the topological index of its first, so at most one more than there are groups |
| `GroupBuild.RelayProxies` | local/clash/adapter/outboundgroup/relay.go:89-101 | The nested loop ends, by the topological index, and replaces every proxy of the slice by the end of its chain of selections, which selects nothing itself, even if groups select differently and providers offer other proxies each time they are asked |
| `TrieSpec.JoinInvertsSplit` | local/clash/component/trie/domain.go:29-29 | Joining the labels gives the domain back |
| `TrieSpec.SplitInvertsJoin` | local/clash/component/trie/domain.go:29-29 | Splitting joined labels gives the labels back |
| `TrieSpec.ValidMeans` | local/clash/component/trie/domain.go:24-45 | Valid are exactly the domains in which no label but the first is empty, and a lone label is not |
| `TrieSpec.FindIsBest` | local/clash/component/trie/domain.go:106-124 | The backtracking search returns the match of highest priority, label by label, among the paths that exist, and nothing exactly when none matches |
| `TrieSpec.BuildHolds` | local/clash/component/trie/domain.go:54-84 | After any insertions the paths are the suffix closure of the patterns, each with the data last stored there |
| `TrieSpec.HitsComeFromPatterns` | local/clash/component/trie/domain.go:91-104 | Every hit comes from an inserted pattern that matches the domain and has that data |
| `TrieSpec.LiteralDomainsWin` | local/clash/component/trie/domain.go:91-124 | A domain that exists literally is answered with its own latest data |
| `TrieSpec.InteriorNodesShadow` | local/clash/component/trie/domain.go:97-101 | A domain that is only on the way to others finds nothing, even where a wildcard matches |
| `TrieSpec.PlusCovers` | local/clash/component/trie/domain.go:60-63 | A plus pattern is stored at x and covers every domain below x where nothing of higher priority matches |
| `TriePatterns.OwnDomainIsFound` | local/clash/component/trie/domain.go:54-69 | A domain inserted without a plus is found with its data, whatever else the trie holds |
| `TriePatterns.OnePattern` | local/clash/component/trie/domain.go:54-124 | A trie with one pattern answers exactly the domains whose labels the pattern covers |
| `TriePatterns.WildcardsMean` | local/clash/component/trie/domain.go:47-69 | As strings: "*.x" answers what is one label, a dot and x; ".x" anything, a dot and x; and "+.x" also x itself |
| `TriePatterns.InvalidIsIgnored` | local/clash/component/trie/domain.go:24-45 | Invalid domains are neither stored nor found, and a leading dot is never found |
| `DomainTrie.Node.AddChild` | local/clash/component/trie/node.go:17-19 | Only the child map changes, at that label |
| `DomainTrie.Trie.InsertPath` | local/clash/component/trie/domain.go:71-84 | The loop over the labels from the right adds the missing nodes and sets the data of the last one, in a tree without sharing |
| `DomainTrie.Trie.Insert` | local/clash/component/trie/domain.go:54-69 | Refines the specified insertion; an invalid pattern changes nothing; a valid one is stored under its labels from the right, or with a plus under those behind it and below them |
| `DomainTrie.Trie.Locate` | local/clash/component/trie/domain.go:106-124 | The recursion over nodes returns the node at the path the specification finds |
| `DomainTrie.Trie.Search` | local/clash/component/trie/domain.go:91-104 | Refines the specified search |
| `VmessSpec.RecordRecognisedIffFits` | local/clash/transport/vmess/aead.go:94-113 | A sealed record is read back, with the counter it was made with, if and only if its sealed part is within maxSize |
| `VmessSpec.ChunkRecognisedIffFits` | local/clash/transport/vmess/chunk.go:48-72 | A plain record is read back if and only if it is within maxSize |
| `VmessSpec.RecordsFit` | local/clash/transport/vmess/aead.go:39-53 | Every record the writer makes fits the relay buffer and the reader's limit |
| `VmessSpec.SealedRoundTrip` | local/clash/transport/vmess/aead.go:27-124 | Any sequence of writes: what a reader with the same counter has before it is all that was written, and the counters are equal at the end, wrap-around included |
| `VmessSpec.PlainRoundTrip` | local/clash/transport/vmess/chunk.go:32-102 | The same for plain records |
| `VmessSpec.CounterCountsRecords` | local/clash/transport/vmess/aead.go:51-51 | The counter is the number of records so far modulo 2^16 |
| `VmessSpec.NonceHoldsCounter` | local/clash/transport/vmess/aead.go:47-48 | The first two bytes of a nonce are the counter, the rest is from the IV |
| `VmessSpec.RecordInStream` | local/clash/transport/vmess/aead.go:39-53 | The k-th record of a stream is the length of what is sealed, high byte first, and the piece sealed under the nonce of the k-th counter |
| `VmessSpec.NonceComesAgainIff` | local/clash/transport/vmess/aead.go:47-51 | Two records of a stream are sealed under the same nonce if and only if a multiple of 2^16 records lies between them |
| `VmessSpec.ChunkInStream` | local/clash/transport/vmess/chunk.go:78-102 | The k-th plain record is the length, high byte first, and the piece |
| `VmessSpec.RecordVerdictsMean` | local/clash/transport/vmess/aead.go:94-113 | When a reader of sealed records waits, and of what it complains |
| `VmessSpec.ChunkVerdictsMean` | local/clash/transport/vmess/chunk.go:48-72 | The same for plain records |
| `ByteCodec.PiecesAreFull` | local/clash/transport/vmess/aead.go:34-59 | All pieces of a write but the last are full |
| `VmessSpec.SealedChunking` | local/clash/transport/vmess/aead.go:27-124 | However the sealed records are cut up on the way, taking them as they come gives all writes and the writer's counter |
| `VmessSpec.PlainChunking` | local/clash/transport/vmess/chunk.go:32-102 | The same for plain records |
| `ByteCodec.PiecesKeepBytes` | local/clash/transport/vmess/aead.go:34-59 | The cutting loop loses no byte |
| `VmessAead.PutNonce` | local/clash/transport/vmess/aead.go:106-107 | The counter in big-endian order in front of ten bytes of the IV, written into the reused array |
| `VmessAead.Writer.WriteRecord` | local/clash/transport/vmess/aead.go:39-53 | One piece is sealed in place in the relay buffer and handed over as one record |
| `VmessAead.Writer.Write` | local/clash/transport/vmess/aead.go:27-61 | The loop writes the records of all pieces and reports the full length |
| `VmessAead.Reader.Read` | local/clash/transport/vmess/aead.go:78-124 | Conservation: what was still to be delivered is what the read delivers and what is still to be delivered then; with a record held, counter and input stay; otherwise both move on by the next record, or the error is the one it calls for |
| `VmessAead.WritesThenReads` | local/clash/transport/vmess/aead.go:27-124 | End to end: for any writes and then reads of any sizes, what is read is a prefix of what was written, the only error is the end of the input with everything delivered, and a reader that has taken all has the writer's counter |
| `VmessAead.Reader.Next` | local/clash/transport/vmess/aead.go:89-113 | One record is read and opened, or the matching error returned |
| `VmessAead.Reader.Drain` | local/clash/transport/vmess/aead.go:79-87 | Part of the held record is passed on and the buffer dropped when used up |
| `VmessChunk.Writer.Write` | local/clash/transport/vmess/chunk.go:76-102 | The loop of the plain writer |
| `VmessChunk.Reader.Read` | local/clash/transport/vmess/chunk.go:32-72 | Conservation for the plain reader, with the input moving on by whole records |
| `VmessChunk.WritesThenReads` | local/clash/transport/vmess/chunk.go:32-102 | End to end for plain records: a prefix, and no error but the end of the input with everything delivered |
| `MurmurSpec.MixInTwo` | local/clash/common/murmur3/murmur.go:19-43 | Whole blocks may be mixed early; the pending bytes go in front of what comes next |
| `MurmurSpec.SplitIsIrrelevant` | local/clash/common/murmur3/murmur.go:19-43 | However a string is split into writes, the digest ends in the state that one write of the whole leaves, for any way of mixing a block |
| `Murmur.AfterOneWrite` | local/clash/common/murmur3/murmur32.go:69-144 | The sum after one write of a string is its one-shot hash |
| `MurmurSpec.RotateBits` | local/clash/common/murmur3/murmur32.go:57-62 | The rotations move every bit up by 15 and 13 places, and the top ones round |
| `MurmurSpec.Published` | local/clash/common/murmur3/murmur32.go:50-97 | A block and the pending bytes do to the hash what murmur3 says |
| `MurmurSpec.PublishedScramble` | local/clash/common/murmur3/murmur32.go:57-59 | The two factors and the rotation between them |
| `MurmurSpec.PublishedAvalanche` | local/clash/common/murmur3/murmur32.go:90-94 | The shifts and factors at the end |
| `Murmur.Digest32.BMix` | local/clash/common/murmur3/murmur32.go:50-67 | Mixes the whole blocks and returns the rest as a view of its argument |
| `Murmur.Digest32.Write` | local/clash/common/murmur3/murmur.go:19-43 | The digest moves as specified and keeps 0 to 3 pending bytes at the front of its own buffer, although they are completed and extended there in place |
| `Murmur.Digest32.StickBack` | local/clash/common/murmur3/murmur.go:23-35 | Completing the pending bytes to a block in the digest's buffer, or extending them there, leaves hash and rest as if all bytes had been in one string |
| `Murmur.Digest32.KeepTail` | local/clash/common/murmur3/murmur.go:39-41 | The copy back to the front of the buffer, overlapping included, keeps the pending bytes |
| `Murmur.Digest32.Sum32` | local/clash/common/murmur3/murmur32.go:69-97 | The sum of the digest's state |
| `Murmur.Digest32.Reset` | local/clash/common/murmur3/murmur.go:46-50 | Back to the seed, nothing pending |
| `Murmur.Digest32.OfParts` | local/clash/common/murmur3/murmur.go:19-43 | Writing any parts into a digest gives the hash of their concatenation |
| `Murmur.Sum32WithSeed` | local/clash/common/murmur3/murmur32.go:101-144 | The one-shot loop computes the same hash |
| `TlsTicketSpec.RecognisedIffFits` | local/clash/transport/ssr/obfs/tls1.2_ticket_auth.go:59-70 | A record is read back at its exact size if and only if it has 1 to 65535 bytes |
| `TlsTicketSpec.RecordsRoundTrip` | local/clash/transport/ssr/obfs/tls1.2_ticket_auth.go:57-73 | Well-formed records are reassembled to their payloads for any chunking |
| `TlsTicketSpec.LastArrivesIffItFits` | local/clash/transport/ssr/obfs/tls1.2_ticket_auth.go:57-73 | Behind records that fit, a last record arrives if and only if it is shorter than 65536 bytes |
| `TlsTicketSpec.CutKeepsBytes` | local/clash/transport/ssr/obfs/tls1.2_ticket_auth.go:92-102 | The random cutting after the handshake loses no byte |
| `TlsTicketSpec.CutSizes` | local/clash/transport/ssr/obfs/tls1.2_ticket_auth.go:92-102 | A short write is one record; else all pieces but the last are as long as drawn, from 100 to 4195 bytes |
| `TlsTicketSpec.CutsWhileLong` | local/clash/transport/ssr/obfs/tls1.2_ticket_auth.go:92-102 | A write is cut as long as more than 2048 bytes remain and no longer |
| `TlsTicketSpec.RecordInStream` | local/clash/transport/ssr/obfs/tls1.2_ticket_auth.go:176-180 | A record in the stream: 23, 3, 3, length with the high byte first, piece |
| `TlsTicket.FinishOnTheWire` | local/clash/transport/ssr/obfs/tls1.2_ticket_auth.go:159-165 | The second flight is two records, the second with 22 random bytes and the code of all that goes before it |
| `TlsTicket.AnswersAreAuthentic` | local/clash/transport/ssr/obfs/tls1.2_ticket_auth.go:75-81 | An answer is accepted if and only if it is made with the key: a code behind 22 bytes, and one of the whole at its end |
| `TlsTicket.Conn.Write` | local/clash/transport/ssr/obfs/tls1.2_ticket_auth.go:87-174 | The status moves 0 to 1 to 8 only; every accepted byte is in exactly one record, in order, waiting in sendBuf before the end of the handshake and on the wire after it |
| `TlsTicket.Conn.FinishHandshake` | local/clash/transport/ssr/obfs/tls1.2_ticket_auth.go:159-171 | The second flight is sent with all buffered records behind it |
| `TlsTicket.Conn.Read` | local/clash/transport/ssr/obfs/tls1.2_ticket_auth.go:45-85 | Only an answer with both codes right moves the handshake on; after it every byte that came in is accounted for until a wrong magic number |
| `TlsTicket.Conn.Reassemble` | local/clash/transport/ssr/obfs/tls1.2_ticket_auth.go:59-70 | The record loop against the decoder's specification |
| `TlsTicket.Conn.EveryAcceptedByteArrivesOnce` | local/clash/transport/ssr/obfs/tls1.2_ticket_auth.go:87-174 | Once the handshake is over, a reader of the records gets every byte ever accepted, exactly once and in order, for any chunking |
| `DialRace.StepKeepsInv` | local/clash/component/dialer/dialer.go:101-163 | Every step of every goroutine keeps the race's invariant |
| `DialRace.RunsAreShort` | local/clash/component/dialer/dialer.go:114-163 | Every interleaving ends after at most six steps |
| `DialRace.SomeStepUnlessOver` | local/clash/component/dialer/dialer.go:117-124 | No goroutine is ever stuck: some step is possible if and only if the loop has not returned or a racer is not gone |
| `DialRace.ReturnedIsOpen` | local/clash/component/dialer/dialer.go:143-146 | In every state of every run at most two results have been taken and the returned connection is open |
| `DialRace.OutcomeOfEveryRun` | local/clash/component/dialer/dialer.go:95-166 | When a run is over, a connection has been returned if and only if a racer succeeded, every other opened connection is closed, and without a success the error follows the resolved-first rule |
| `DialRace.OutcomeFromSteps` | local/clash/component/dialer/dialer.go:101-166 | In terms of what the network did: the connection returned was dialed and every other one dialed is closed; without one the error is the IPv4 racer's, unless only the IPv6 one resolved |
| `SingleDo.StepKeepsInv` | local/clash/common/singledo/singledo.go:29-60 | Every step of any number of Do calls, of Reset and of the clock keeps the invariant |
| `SingleDo.AtMostOneInProgress` | local/clash/common/singledo/singledo.go:37-53 | In every run at most one fn is being executed at any moment |
| `SingleDo.EveryReturnIsExplained` | local/clash/common/singledo/singledo.go:29-56 | Every returned pair is its own call's, the joined call's, or a kept value and error of completed calls started less than wait before the Do entered |
| `SingleDo.SomebodyCanMove` | local/clash/common/singledo/singledo.go:32-48 | A kept result is never missing when it is read, and a waiting Do always has somebody to wait for |
| `SingleDo.JoinersGetThatCall` | local/clash/common/singledo/singledo.go:37-41 | A Do that finds a call in flight gets that very call's pair |
| `SingleDo.ResetRerunsIffNothingInFlight` | local/clash/common/singledo/singledo.go:58-60 | After a Reset the next Do runs fn if and only if no call is in flight |
| `SingleDo.CachedPairIsWholeIffNothingFinishes` | local/clash/common/singledo/singledo.go:32-35 | The value and the error of a kept pair are taken from the same call if and only if no call finishes between the two reads, which happen after the unlock |
| `SingleDo.PairsCanBeTorn` | local/clash/common/singledo/singledo.go:32-35 | A run in which a Do returns the value of one call with the error of the next |
| `SingleDo.WhatADoDoes` | local/clash/common/singledo/singledo.go:29-44 | In every run a Do that enters takes the kept pair if and only if the last call to finish was entered less than wait ago and no Reset came since; else it joins if a Do is executing fn; else it starts a call now |
| `LoadBalance.JumpHash` | local/clash/adapter/outboundgroup/loadbalance.go:60-70 | The loop ends, in a bucket below the number of buckets |
| `LoadBalance.StaysOrMovesToTheNew` | local/clash/adapter/outboundgroup/loadbalance.go:60-70 | With one bucket more a key stays or goes to the new bucket |
| `LoadBalance.NeverMovesBetweenOldBuckets` | local/clash/adapter/outboundgroup/loadbalance.go:60-70 | However many buckets are added, no key moves between old ones |
| `LoadBalance.JumpIsQuotient` | local/clash/adapter/outboundgroup/loadbalance.go:66-67 | A jump leads to a whole quotient of the bucket and the upper half of the key |
| `LoadBalance.KnownBucket` | local/clash/adapter/outboundgroup/loadbalance.go:60-70 | One key followed through: 1 among ten buckets goes to 6 |
| `LoadBalance.FiveChoices` | local/clash/adapter/outboundgroup/loadbalance.go:119-127 | The choices are those of five consecutive keys |
| `LoadBalance.ConsistentHashing` | local/clash/adapter/outboundgroup/loadbalance.go:119-134 | The first living one of five hashed choices, or the first proxy when all five are dead |
| `LoadBalance.RoundRobin.Pick` | local/clash/adapter/outboundgroup/loadbalance.go:103-117 | The first living proxy after the last pick in cyclic order; a dead one is returned only when all are |
| `Socks5Addr.SplitFindsTheAddress` | local/clash/transport/socks5/socks5.go:302-328 | An address is split off exactly when the input begins with it |
| `Socks5Addr.UdpAddrRoundTrip` | local/clash/transport/socks5/socks5.go:69-85 | Address and port survive the conversion in both directions |
| `Socks5Addr.AddressOnTheWire` | local/clash/transport/socks5/socks5.go:272-328 | The three kinds of address, their lengths, and where their IP and port stand |
| `Socks5Addr.ReadAddr` | local/clash/transport/socks5/socks5.go:272-299 | Reads exactly the address the input begins with; each error exactly in its case |
| `Socks5Addr.UdpPacketRoundTrip` | local/clash/transport/socks5/socks5.go:402-435 | A datagram comes back as it was if and only if its address is well formed |
| `Socks5Addr.UdpPacketIsCanonical` | local/clash/transport/socks5/socks5.go:402-435 | What is decoded encodes to the same packet |
| `Socks5Addr.UdpErrors` | local/clash/transport/socks5/socks5.go:402-422 | Which packets are not decoded, and with which error |
| `Socks5Handshake.MovesKeepInv` | local/clash/transport/socks5/socks5.go:108-270 | Every read of either side, with what it writes next, keeps the phase invariant and brings the end closer |
| `Socks5Handshake.WhereItEnds` | local/clash/transport/socks5/socks5.go:108-270 | Where neither side can go on, both are done, or one has failed |
| `Socks5Handshake.HandshakeSucceedsIffAccepted` | local/clash/transport/socks5/socks5.go:108-270 | Every run ends after at most twenty reads; both sides succeed if and only if the user is accepted, the command supported and the server's address known, and then command and addresses agree and no byte is left unread |
| `Socks5Handshake.RunsAreShort` | local/clash/transport/socks5/socks5.go:108-270 | Every run ends after at most twenty reads, for names and passwords of any length |
| `Socks5Handshake.CompleteIffAcceptedAndLengthsFit` | local/clash/transport/socks5/socks5.go:108-270 | For all lengths: a run that cannot go on has given the server the client's command and address and the client the server's address, with no byte left unread, if and only if the user is accepted, the request can be served, and name and password, where they are sent, have at most 255 bytes |
| `Socks5Handshake.HandshakeOnTheWire` | local/clash/transport/socks5/socks5.go:108-270 | In every run that completes the handshake the bytes either side has sent are those of RFC 1928 and RFC 1929, in full |
| `Socks5Handshake.OwnUserIsAskedIffLengthsFit` | local/clash/transport/socks5/socks5.go:126-165 | In every finished run a server that authenticates has asked its verifier about the client's own user if and only if name and password have 1 to 255 bytes; about a longer one it never asks |
| `Socks5Handshake.LongNamesAreRefused` | local/clash/transport/socks5/socks5.go:134-139 | In every run a name whose length is a multiple of 256, the empty one included, is refused, whatever the verifier says: after at most six reads nobody can go on, and then both sides have failed |
| `Trojan.WriteFrame` | local/clash/transport/trojan/trojan.go:122-132 | One frame; the count returned is the length of the frame |
| `Trojan.WritePacket` | local/clash/transport/trojan/trojan.go:134-159 | A payload goes out as one frame or as the frames of its pieces of 8192; the count returned is the payload's length if and only if that is over 8192, and else the frame's |
| `Trojan.ReadAll` | local/clash/transport/trojan/trojan.go:209-243 | For any packets and reads of any sizes: what is read is a prefix of the packets' bytes, each with its packet's address; a read fails only between frames, for want of 259 bytes of room or because everything has been delivered |
| `Trojan.ReadPacket` | local/clash/transport/trojan/trojan.go:161-192 | Head and as much payload as there is room for; each error exactly in its case; the address is that of the frame although its buffer is used again |
| `Trojan.PacketConn.ReadFrom` | local/clash/transport/trojan/trojan.go:209-243 | Conservation with addresses: what was still to be delivered is what the read delivers, tagged with the frame's address, and what is still to be delivered then; input and remainder afterwards are determined |
| `TrojanSpec.WireIsWhole` | local/clash/transport/trojan/trojan.go:122-159 | The wire of any packets is frame after frame, each with all of its payload |
| `TrojanSpec.FrameOnTheWire` | local/clash/transport/trojan/trojan.go:122-132 | A frame is address, length with the high byte first, CR, LF, payload |
| `TrojanSpec.WireOfWrite` | local/clash/transport/trojan/trojan.go:134-159 | Up to 8192 bytes, and none as well, are one frame; more are full frames and one with the rest |
| `TrojanSpec.HeadErrors` | local/clash/transport/trojan/trojan.go:161-181 | What can be wrong behind the address of a frame, in the order of the bytes |
| `TrojanSpec.NoAddressNoHead` | local/clash/transport/trojan/trojan.go:161-165 | No head exactly where no address begins the input |
| `TrojanSpec.PacketsRoundTrip` | local/clash/transport/trojan/trojan.go:122-192 | Every byte of every packet, in order, with the address it was sent for |
| `TrojanSpec.LeftSplits` | local/clash/transport/trojan/trojan.go:212-230 | Delivering part of a frame conserves delivered plus remaining |
| `TrojanSpec.PiecesFit` | local/clash/transport/trojan/trojan.go:139-156 | Frames carry at most 8192 bytes |

## Left out

- Authentication header frames (`packAuthData`) and the SSR datagram codecs: their other end is not in the repository. `Encode` and `Decode` are modelled from the state the header leaves behind, `getHeadSize` and `getDataLength` only decide what goes into the header.
- Real cryptography and key derivation: abstract functions.
- Prng.XorShift128Plus.InitFromBinAndLength: the state of the generator after a panic is not specified.
- trapezoidRandom: the square-root branch, which needs a positive skew; every call passes -0.3.
- AuthAes128.Protocol.Decode: after a panic, buffer and counter are not specified.
- LruSpec.HoldsTheMostRecent: that the entries are as many as fit is not claimed of caches whose entries also leave by their expiry; their order is, in LruRecency.EntriesAreByRecency, and what leaves, in EveryPairIsAccountedFor.
- LruCache.LruCache.CloneTo: the target then shares entry objects with the original, so a later set in one shows in the other; later operations on such a pair are not modelled.
- FakeIpPool.Pool.Lookup: `Valid` excludes sizes of at least the number of addresses, as well as IPv6 networks, the persistent store and `CloneFrom`; there the pairs need not be a bijection.
- DagSort.ProxyGroupsDagSort: graph nodes are records held by value in a map and updated through it, where the source shares them; group options other than name and members, and decoding them from maps, are not modelled.
- GroupBuild.ParseProxies: decoding of options, initialisation of providers, and the order of the proxy list are not modelled.
- GroupBuild.RelayProxies: every provider is taken to offer at least one proxy, which selects nothing itself; the slice written to is the cached one, and that later calls see it is not modelled.
- Mutexes of the LRU cache, the fake-IP pool, the VMess writer and the Trojan reader: each method is one critical section.
- Write errors of the underlying connection in the VMess, Trojan and TLS-ticket writers, and reads that fail half-way other than by the end of the input.
- Buffer pools: a buffer is new each time; returning it is not modelled.
- TlsTicket.Conn.Write: the contents of the client hello are a parameter; any write of more than 65535 bytes before the end of the handshake gets a truncated length field.
- TlsTicket.Conn.EveryAcceptedByteArrivesOnce: such writes are excluded; LastArrivesIffItFits says that one does not arrive when it is the last, and what a reader makes of records behind one depends on their contents.
- DialRace.OutcomeOfEveryRun: splitting the address, which fails before a racer is started, and cancellation other than as a failed dial.
- SingleDo.EveryReturnIsExplained: a panic in `fn`, which leaves waiters waiting, and the unlocked write of Reset being torn.
- LoadBalance.JumpHash: floating-point rounding; the quotient is exact and at least 1.
- Socks5Handshake.HandshakeSucceedsIffAccepted: where the server authenticates, user names and passwords longer than the 255 bytes of RFC 1929 are excluded, as in MovesKeepInv and WhereItEnds, since the client truncates their length byte; CompleteIffAcceptedAndLengthsFit is for all lengths, and how exactly such a run goes wrong depends on the bytes.
- Parsing of addresses from strings (`ParseAddr`), HTTP, rules, listeners, providers, resolvers and the user interface.
- Trojan and TLS headers, websocket transport, and the TLS handshake itself.
