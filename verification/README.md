# REALITY-Hydra: a verified model of the tunnel, the keyed pool and the caches

REALITY-Hydra moves a local application's connections through an exit node. The client accepts SOCKS5,
opens a TLS connection to the exit node under an SNI drawn from a pool that changes every epoch, and sends an
authenticated CONNECT header as the first bytes inside it. The exit node reads that header, dials the
destination, answers with one byte and relays. Client and server compute the same pool from a shared secret,
with a window of one epoch on either side for clock skew; choices are sticky per destination, and the names
are resolved ahead of time through a DNS cache.

The model covers the parts whose behaviour is decided by this code:

| file | contents |
|---|---|
| `words.dfy`, `utf8.dfy`, `ordering.dfy` | machine words, fixed-width encodings, UTF-8 validity (section 4 of RFC 3629) against the encoding of code points (section 3), string order, stable sorting |
| `tunnel_proto.dfy` | the CONNECT header: printer, parser, incremental parsing |
| `streams.dfy`, `exit_node.dfy`, `tunnel_client.dfy` | the exit node's read loop and reply, the client's `open`, over streams that cut data anywhere and may break |
| `tunnel_system.dfy`, `tunnel_streams.dfy` | client, exit node and destination running together over two byte queues |
| `socks5.dfy`, `end_to_end.dfy` | the SOCKS5 handshake, and the way a destination takes from the application through every run of the two parties |
| `pool.dfy`, `sampler.dfy`, `weights.dfy`, `epochs.dfy` | master list, A-Res subset, effect of weights, epoch arithmetic and the accepted window |
| `expiring.dfy`, `selector.dfy`, `warmer.dfy`, `warmer_tasks.dfy` | maps with deadlines, sticky selection, the DNS cache alone and shared by interleaved tasks |
| `pipeline.dfy`, `stale_pool.dfy` | epoch refreshes and picks of many connections sharing one pool, and a deployment in which they leave it behind |
| `san.dfy` | the dNSName matcher against a label-list specification |

Reading loops, in-place updates and object fields keep their imperative form: methods and classes proved
against functions of the inputs or of the old state. The theorems are lemmas about those functions, or about
every run of a step relation.

## What is assumed about the parts not modelled

- HMAC-SHA256 is an arbitrary deterministic function of key and message with a 32-byte result. Nothing is
  claimed about forgery or collisions; the theorems hold for a constant function too.
- The draws of a seeded ChaCha20 generator are arbitrary: the model takes `ln(u_i)` as any non-positive real
  that depends on seed and index alone. The selector's draws are arbitrary reals in [0, 1).
- Weights, keys and running totals are exact reals.
- A Rust `String` is a byte sequence that is valid UTF-8. SNIs are compared byte-wise, as `str` is.
- Streams deliver data in pieces of any size and end when the peer's data ends. A stream that is not marked
  reliable may also fail at any read or write, leaving any part of the data written.
- Clocks are parameters: the exit node's may show a different value at each parse, an epoch refresh may read
  any epoch, and cache operations take any `now_ms`, in any order, unless a lemma relates
  them.
- `sort_by` is a stable insertion sort, and `into_values` on the window's map yields its values in any order.

## What the code does that its documentation does not say

- `Target` accepts any name, but 254 and 255 bytes are refused by the parser, and above 255 the length byte
  wraps (crates/tunnel-proto/src/lib.rs:138): a 256-byte name can be read back as the empty name when the tag
  agrees. `RoundTripIff` gives the exact condition for a name to survive, `RoundTripFailsAt254` and
  `LengthByteWraps` are the concrete failures, and 255 bytes is the hypothesis of the two-party theorems. A
  SOCKS5 request cannot exceed it, so `DestinationSurvives` needs no hypothesis on the name.
- The header documentation says the exit node answers unauthenticated bytes by hanging up
  (crates/tunnel-proto/src/lib.rs:34-35); the code writes AUTH_FAIL first
  (crates/hydra-server/src/lib.rs:114-118). The model follows the code.
- The overflow branch of the read loop (crates/hydra-server/src/lib.rs:104-106) cannot be reached: a truncated
  header has fewer than 298 bytes.
- Two refreshes that hold different epochs can cross between writing the pool and publishing the epoch. The
  pool then stays behind the published epoch until the epoch changes again: `PoolCanStayBehind` is a deployment
  and a run that end so, and `CurrentRefreshIsIdle` says it lasts. `PoolMatchesIff` is the exact condition over
  all runs, read off the order of the writes and publications; `PoolMatchesPublished` is a sufficient one on how
  refreshes overlap, and `PublishOrderMatters` says what decides it for two refreshes that have both written.
- Two concurrent `warm` calls can leave a host cold right after one of them returned, because the expiry is
  stamped before the lookup and the last insert wins (`LateInsertCanCool`). `WarmAfterReturnIff` is the exact
  condition over all runs: the inserts for that host and the evictions that come after the return leave an
  expiry later than the caller's time. `SparedStaysWarm` is what a caller can ask of the other tasks.
- The selector's documentation asks for monotonic milliseconds, and the pipeline passes the wall clock. Less is
  enough for `evict_expired` to be invisible: no call may be earlier than an eviction it follows
  (`EvictionIsInvisible`, for both caches), and times may otherwise go back. That much is needed:
  `EvictionIsSafeIff` says so for any two times, and `EvictionCanBeNoticed` is a run from an empty cache.
- A pattern `*.x` with one label after the wildcard covers nothing, not even a name spelled like the pattern
  (`BareWildcardCoversNothing`).
- The fixed fallback SNI is never used when the active size is at least 1, and over exact reals the last line of
  `weighted_pick` is never reached.

## Model

| member | source | states |
|---|---|---|
| Words.Le64Bijective | crates/tunnel-proto/src/lib.rs:214 | eight little-endian bytes and a 64-bit word determine each other |
| TunnelProto.EncodeAddrTo | crates/tunnel-proto/src/lib.rs:130-147 | appends exactly atyp, address and port to whatever the buffer holds |
| TunnelProto.BuildRequest | crates/tunnel-proto/src/lib.rs:211-219 | the header is the signed fields followed by the tag over exactly those bytes |
| TunnelProto.HeaderLayout | crates/tunnel-proto/src/lib.rs:16-34 | byte by byte, in literals: version 1, seconds little-endian, address type 1, 3 or 4 and the address, port big-endian, a 32-byte tag over all before it |
| TunnelProto.ParseRequest | crates/tunnel-proto/src/lib.rs:240-319 | the cursor-driven parser gives, on every buffer, the verdict of the staged specification, with the same error and the same missing count |
| TunnelProto.ParsedFieldsReprint | crates/tunnel-proto/src/lib.rs:259-299 | printing the parsed fields gives back the very bytes that were read |
| TunnelProto.PrintedFieldsReparse | crates/tunnel-proto/src/lib.rs:130-147 | parsing printed fields gives them back, whatever bytes follow |
| TunnelProto.SignedVerdict | crates/tunnel-proto/src/lib.rs:301-318 | the exact verdict on a whole header with any tag: the tag is judged before the timestamp |
| TunnelProto.AcceptedIff | crates/tunnel-proto/src/lib.rs:232-319 | accepted with a given target, timestamp and length if and only if the target is well formed, its encoding under the server's key is a prefix of that length, and the clock distance is within the skew over the full 64-bit range |
| TunnelProto.BadMacIff | crates/tunnel-proto/src/lib.rs:322-326 | BadMac if and only if the buffer holds a whole well-formed header whose tag is not the server's |
| TunnelProto.StaleIff | crates/tunnel-proto/src/lib.rs:308-312 | Stale if and only if the buffer holds an authentic header outside the freshness window |
| TunnelProto.JudgedIffWhole | crates/tunnel-proto/src/lib.rs:247-305 | the tag is looked at if and only if the buffer holds a whole well-formed header |
| TunnelProto.BadVersionIff | crates/tunnel-proto/src/lib.rs:255-258 | BadVersion with the first byte, if and only if ten bytes are there and the first is not 1 |
| TunnelProto.BadAtypIff | crates/tunnel-proto/src/lib.rs:263-294 | BadAtyp with byte 9, if and only if the version is 1 and that byte is not 1, 3 or 4 |
| TunnelProto.DomainTooLongIff | crates/tunnel-proto/src/lib.rs:274-279 | DomainTooLong with the length byte, if and only if it is there and exceeds 253 |
| TunnelProto.BadDomainIff | crates/tunnel-proto/src/lib.rs:280-283 | BadDomain if and only if the whole name is there and is not UTF-8 |
| TunnelProto.TruncatedIff | crates/tunnel-proto/src/lib.rs:247-302 | Truncated if and only if nothing that is there is refused and the frame it announces, of 48, 60 or 45 plus the name length bytes, is not complete; the count is what is missing to the next point at which the parser looks |
| Utf8Encoding.ValidIffEncoded | crates/tunnel-proto/src/lib.rs:281-283 | a name passes the byte test if and only if it is the encoding of some sequence of Unicode scalar values |
| TunnelProto.DecidedIsFinal | crates/tunnel-proto/src/lib.rs:232-245 | a verdict other than Truncated is unchanged by appending any bytes |
| TunnelProto.StructuralRefusalIsSafe | crates/tunnel-proto/src/lib.rs:256-295 | a buffer refused for its version, address type, name or name length has no continuation that is a well-formed header |
| TunnelProto.TruncatedIsHonest | crates/tunnel-proto/src/lib.rs:247-253 | Truncated asks for at least one byte, never past 298 in all, and every shorter extension asks for exactly what is still missing |
| TunnelProto.TruncationIgnoresSecrets | crates/tunnel-proto/src/lib.rs:308-309 | whether and how many bytes are missing depends on neither MAC, key, clock nor skew |
| TunnelProto.HonestVerdict | crates/tunnel-proto/src/lib.rs:240-319 | the exact verdict on an honest client's header for any server key and clock, whatever follows it |
| TunnelProto.StrictPrefixIsTruncated | crates/tunnel-proto/src/lib.rs:238-253 | every strict prefix of a well-formed header is Truncated and asks for no more than the rest of it |
| TunnelProto.PrefixFree | crates/tunnel-proto/src/lib.rs:211-230 | no well-formed header is a proper prefix of another, whatever the keys, and a prefix has the same target and timestamp |
| TunnelProto.RoundTripIff | crates/tunnel-proto/src/lib.rs:211-319 | parsing an encoded header returns its target, timestamp and whole length if and only if the name fits 253 bytes and the timestamp is fresh |
| TunnelProto.RoundTripFailsAt254 | crates/tunnel-proto/src/lib.rs:277-279 | a 254-byte name is encoded and then refused as too long |
| TunnelProto.LengthByteWraps | crates/tunnel-proto/src/lib.rs:136-140 | the cast of the length to one byte: a 256-byte name read back as the empty name under a constant MAC |
| TunnelProto.HonestPrefix | crates/tunnel-proto/src/lib.rs:232-245 | of the prefixes of an honest header, only the whole one is accepted, as itself, and the whole one is never Truncated |
| TunnelProto.HonestPrefixDecides | crates/tunnel-proto/src/lib.rs:240-319 | any decision on a prefix of an honest header accepts if and only if the name fits, the keys give the same tag and the timestamp is fresh |
| ExitNode.ReadHeader | crates/hydra-server/src/lib.rs:97-120 | however the stream is cut into reads, the loop ends with the verdict of the whole stream at the deciding clock reading, or at end of stream exactly when that is Truncated; it terminates and never reaches the overflow branch |
| ExitNode.ConcludeIff | crates/hydra-server/src/lib.rs:100-134 | a stream is served if and only if it opens with the server's own encoding of a fresh request, and the dial alone decides between relaying and failing |
| ExitNode.Serve | crates/hydra-server/src/lib.rs:122-140 | dials the decoded target once, writes one reply byte, forwards exactly the bytes past the header |
| ExitNode.Handle | crates/hydra-server/src/lib.rs:93-145 | the outcome is that of the whole stream; the reply is the byte 0 for a relay, 1 for a refusal, 2 for a failed dial and none at end of stream; nothing is dialed before a header is accepted, then only its target; every byte after the header is delivered or still unread, once and in order |
| TunnelClient.Open | crates/hydra-client/src/tunnel.rs:91-113 | sends exactly the encoded header, consumes exactly one byte of the answer and reports what that byte means; on an I/O error what was sent is a prefix of the header |
| TunnelSystem.StepKeepsInv | crates/hydra-server/src/lib.rs:93-145 | every step of client, exit node, network or destination keeps the account of where each header, reply and payload byte is |
| TunnelSystem.RelayIsFaithful | crates/hydra-client/src/tunnel.rs:91-113 | in every interleaving, a relaying client's exit node decoded its target and timestamp, dialed only that, wrote one reply byte and had no leftover; what the two ends have sent by the steps of the run is received or in flight, neither lost, duplicated nor reordered |
| TunnelSystem.EverythingArrives | crates/hydra-server/src/lib.rs:136-144 | from any moment of the relay, further steps of the exit node and the network alone deliver all that either end has sent |
| TunnelStreams.ClientIsTakenAtItsWord | crates/hydra-server/src/lib.rs:93-145 | with no hypothesis on the client's target, after an OK reply the client's bytes as a whole are an acceptable request, its target was dialed, and all bytes after it are delivered, held or in flight |
| TunnelSystem.NothingElseIsDone | crates/hydra-server/src/lib.rs:114-134 | in every run at most one dial, only of the client's target, at most one reply; a refusal code tells which refusal happened; a client that is not relaying has neither sent nor received payload |
| TunnelSystem.AnswerIsRight | crates/hydra-server/src/lib.rs:100-120 | in every run, a decided client holds AUTH_FAIL if and only if its name is too long, the keys give different tags, or its timestamp was not fresh at the clock reading of the last parse |
| TunnelSystem.StepLowersMeasure | crates/hydra-server/src/lib.rs:100-134 | every handshake step lowers the measure and no payload step raises it |
| TunnelSystem.HandshakeIsBounded | crates/hydra-server/src/lib.rs:100-134 | no run has more than three handshake steps for each header byte and seven besides |
| TunnelSystem.NeverStuck | crates/hydra-server/src/lib.rs:97-134 | while the client has no answer some handshake step is enabled: no deadlock |
| TunnelSystem.MaximalRunAnswers | crates/hydra-client/src/tunnel.rs:98-112 | a run with no handshake step left has given the client exactly one of OK, AUTH_FAIL and DIAL_FAIL |
| Socks5.SendReply | crates/hydra-client/src/socks5.rs:127-133 | writes the ten-byte reply with the given status, or a prefix of it on an I/O error |
| Socks5.ReadGreeting | crates/hydra-client/src/socks5.rs:51-67 | consumes a whole greeting and answers it, or fails as the specification says; on an I/O error what was written is a prefix of that answer |
| Socks5.ReadCommand | crates/hydra-client/src/socks5.rs:69-81 | goes on to the address only after version 5 and CONNECT, refusing other commands with status 7; on an I/O error what was written is a prefix of that refusal |
| Socks5.ReadAddr | crates/hydra-client/src/socks5.rs:83-120 | reads the address the type byte announces, refusing unknown types with status 8; on an I/O error what was written is a prefix of that refusal |
| Socks5.Handshake | crates/hydra-client/src/socks5.rs:50-125 | result, bytes written and bytes consumed are those of the specification on the whole stream, however it is cut; on an I/O error what was written is a prefix of those replies |
| Socks5.HandshakeOkIff | crates/hydra-client/src/socks5.rs:50-125 | success with an address after n bytes if and only if the stream opens with an n-byte greeting and CONNECT request for it in the format of sections 3 to 5 of RFC 1928 |
| Socks5.FailureIff | crates/hydra-client/src/socks5.rs:51-120 | each failure by the bytes that cause it, and how much of the stream it has taken |
| Socks5.HandshakeIgnoresWhatFollows | crates/hydra-client/src/socks5.rs:44-49 | bytes after the request change nothing |
| Socks5.RepliesMeanResult | crates/hydra-client/src/socks5.rs:63-123 | the exact bytes written back for each way the handshake can end |
| Socks5.AddressBytesSurvive | crates/hydra-client/src/pipeline.rs:46-52 | the header's address segment is byte-identical to the SOCKS5 request's |
| Socks5.DestinationSurvives | crates/hydra-client/src/pipeline.rs:146-160 | whatever destination the handshake accepted, an exit node with the same key and a close clock decodes that destination, except for names over 253 bytes, which it refuses |
| EndToEnd.ApplicationReachesItsDestination | crates/hydra-client/src/pipeline.rs:146-160 | in every run for an accepted SOCKS5 request, whatever its name, only the requested destination is dialed, and a relaying client exchanges payload with it unchanged |
| EndToEnd.ApplicationIsAnsweredRight | crates/hydra-client/src/pipeline.rs:146-160 | in every such run AUTH_FAIL is the answer if and only if the name has 254 or 255 bytes, the keys give different tags or the timestamp was stale at the deciding reading |
| EndToEnd.ApplicationIsAlwaysAnswered | crates/hydra-client/src/pipeline.rs:146-160 | every such run has a bounded number of handshake steps, and one with none left has answered |
| Ordering.SortSorts | crates/pool-engine/src/entry.rs:105 | for any total preorder the sort orders its input |
| Ordering.LessIff | crates/pool-engine/src/entry.rs:62 | the order of names: a proper prefix first, otherwise by the first difference |
| Pool.NewMasterList | crates/pool-engine/src/entry.rs:45-74 | a strictly sorted permutation of the input, or the first invalid entry's error, or the least repeated SNI |
| Pool.AcceptedIffClean | crates/pool-engine/src/entry.rs:41-45 | accepted if and only if non-empty, every SNI non-empty, every weight positive and no SNI repeated |
| Pool.OrderIsIrrelevant | crates/pool-engine/src/entry.rs:29-34 | permuted inputs give the same list or the same refusal, up to the position an entry error names |
| Pool.CanonicalIsUnique | crates/pool-engine/src/entry.rs:92-97 | two strictly sorted pools with the same entries are equal |
| Pool.FromUnsortedIsFilter | crates/pool-engine/src/entry.rs:103-107 | sorting distinct entries of a master list, collected in any order, is filtering the list |
| Sampler.SubsetFromSeed | crates/pool-engine/src/sampler.rs:27-51 | drawing, sorting by rank, cutting at k and sorting by SNI gives the entries that fewer than k entries outrank |
| Sampler.TopIsUnique | crates/pool-engine/src/sampler.rs:45-49 | only one set of min(k, n) keyed entries outranks all the others |
| Sampler.SortedPrefixIsTop | crates/pool-engine/src/sampler.rs:45-49 | the first min(k, n) in rank order are that set |
| Sampler.MemberIffRank | crates/pool-engine/src/sampler.rs:35-50 | an entry is chosen if and only if fewer than k entries outrank it |
| Sampler.SubsetIsTop | crates/pool-engine/src/sampler.rs:24-29 | the subset is strictly sorted and has min(k, n) of the list's own entries |
| Sampler.MembersOutrankOthers | crates/pool-engine/src/sampler.rs:45-47 | every chosen entry has a larger key than every other, or the same key and the smaller SNI |
| Sampler.SubsetIsUnique | crates/pool-engine/src/sampler.rs:45-50 | those facts determine the subset |
| Sampler.SubsetsNest | crates/pool-engine/src/sampler.rs:27-29 | a larger k keeps every entry of a smaller one |
| Weights.NoEntryNoChange | crates/pool-engine/src/sampler.rs:35-50 | unless the raised entry newly enters, no membership changes |
| Weights.RaisedOutsiderEnters | crates/pool-engine/src/sampler.rs:35-50 | when it does enter, the lowest-ranked member leaves and nobody else moves |
| Weights.RaisingAWeight | crates/pool-engine/src/sampler.rs:35-50 | raising a weight under a fixed seed never drops the entry; the subset is unchanged or exactly one exchange happens |
| Epochs.EpochIff | crates/pool-engine/src/epoch.rs:15-20 | an epoch is exactly the half-open interval of one epoch length that starts at its multiple; of length 0, one second |
| Epochs.InWindowIff | crates/pool-engine/src/epoch.rs:34-42 | the saturating window holds exactly the epochs at distance at most one |
| Epochs.SkewCostsOneEpoch | crates/pool-engine/src/epoch.rs:36-39 | clocks at most one epoch length apart are within one epoch of each other |
| Epochs.SkewBoundIsTight | crates/pool-engine/src/epoch.rs:36-39 | one second more breaks it for some pair of clocks |
| Epochs.SeedMessageIsUnambiguous | crates/pool-engine/src/kdf.rs:12-13 | the authenticated message determines salt and epoch |
| Epochs.SeedIsMacOf | crates/pool-engine/src/kdf.rs:37-49 | the seed is the MAC under the shared secret of the 37 bytes laid out as tag, salt and little-endian epoch |
| Epochs.KeyedEpochSubset | crates/pool-engine/src/sampler.rs:57-66 | the subset of the seed derived for that epoch |
| Epochs.EpochSubsetIsTop | crates/pool-engine/src/sampler.rs:57-66 | an epoch's subset has min(k, n) entries, and those have the largest keys under the epoch's own seed |
| Epochs.InsertAll | crates/pool-engine/src/lib.rs:86-90 | inserting a subset by SNI adds exactly its entries to the map's values |
| Epochs.AcceptedPoolWindow | crates/pool-engine/src/lib.rs:76-93 | the nested loops, whatever order the map yields, produce the list's entries that are live in some epoch of the window |
| Epochs.WindowIsUnion | crates/pool-engine/src/lib.rs:68-93 | the window is the union of three subsets, strictly sorted, with the master list's own entries and weights, between min(k, n) and min(3k, n) of them |
| Epochs.AcceptedIffLive | crates/pool-engine/src/lib.rs:68-93 | an entry is accepted if and only if it is in the subset of an epoch at distance at most one |
| Epochs.WindowAtTheEnds | crates/pool-engine/src/epoch.rs:38-41 | at epoch 0 and at the last epoch the repeated epoch adds nothing |
| Epochs.SkewedClientIsAccepted | crates/pool-engine/src/lib.rs:71-75 | a client whose clock is off by at most one epoch length presents only SNIs the server accepts, over the full 64-bit range |
| Epochs.NeighbouringWindowsOverlap | crates/hydra-client/src/pipeline.rs:81-89 | two windows one epoch apart both contain both single-epoch subsets |
| Selector.PickedIffCovered | crates/pool-engine/src/select.rs:97-103 | the weight intervals partition the range: the picked entry is the only one whose interval holds the draw |
| Selector.IntervalsAreWeights | crates/pool-engine/src/select.rs:95-103 | the intervals start at 0, lie end to end, are as long as the weights and end at the total |
| Selector.DrawDecides | crates/pool-engine/src/select.rs:97-103 | a draw u picks the entry whose interval holds u times the total weight |
| Selector.WeightedPick | crates/pool-engine/src/select.rs:93-107 | the decrementing walk takes one draw and returns the entry whose interval holds the draw times the total weight; it never falls through |
| Selector.Selector.Select | crates/pool-engine/src/select.rs:51-78 | new cache, draws used and result are those of the specification step; the result is in the pool, and absent only for an empty pool |
| Selector.SelectByCases | crates/pool-engine/src/select.rs:58-77 | a choice that is not lapsed and still in the pool is returned and nothing changes; otherwise one draw is taken and its SNI kept for this destination alone until min(now + ttl, u64::MAX) |
| Selector.Selector.EvictExpired | crates/pool-engine/src/select.rs:86-89 | no lapsed entry remains, and no lookup at that time or later can tell |
| Selector.EvictionIsInvisible | crates/pool-engine/src/select.rs:86-89 | evictions anywhere in a run change no result and no draw if no call is earlier than an eviction it follows |
| Selector.EvictionIsSafeIff | crates/pool-engine/src/select.rs:62-89 | an eviction is safe before a call, whatever is cached and asked, if and only if the call is not earlier |
| Selector.EvictionCanBeNoticed | crates/pool-engine/src/select.rs:62-89 | for every pool and every eviction ahead of the clock by the TTL, a run from an empty cache in which the eviction costs a second draw |
| Selector.ChoiceIsSticky | crates/pool-engine/src/select.rs:42-78 | a choice made on a miss is returned without a draw by a later call for that destination if and only if it comes before min(t + ttl, u64::MAX) and its pool holds the SNI, given that the pools in between did; other destinations and hits do not interfere |
| Warmer.LifetimeIsClamped | crates/dns-warmer/src/warmer.rs:111-112 | the expiry lies between the floor and the ceiling after the stamp, saturating |
| Warmer.KeptForItsTtl | crates/dns-warmer/src/warmer.rs:111-112 | an answer of a whole number of milliseconds is kept for exactly that long, within the floor and the ceiling, and below or above them for exactly those |
| Warmer.DnsWarmer.Warm | crates/dns-warmer/src/warmer.rs:97-123 | new cache, lookups made and reply are those of the specification step; after a cold call that succeeded the host is warm at t if and only if t comes before now plus the clamped TTL in milliseconds and before u64::MAX |
| Warmer.WarmByCases | crates/dns-warmer/src/warmer.rs:97-123 | a hit changes nothing; a miss makes one lookup, an error changes nothing else, and an answer is kept for this host alone for its clamped TTL |
| Warmer.DnsWarmer.IsWarm | crates/dns-warmer/src/warmer.rs:129-132 | true if and only if `warm` would reply without a lookup |
| Warmer.DnsWarmer.Peek | crates/dns-warmer/src/warmer.rs:138-144 | exactly the reply `warm` would give without a lookup, and nothing when it would make one |
| Warmer.DnsWarmer.EvictExpired | crates/dns-warmer/src/warmer.rs:147-150 | no lapsed entry remains, and no lookup at that time or later can tell |
| Warmer.WarmAfterWarm | crates/dns-warmer/src/warmer.rs:91-96 | with a floor of at least a millisecond, a host is warm right after `warm` if and only if it succeeded, except at the last instant |
| Warmer.WarmAfterWarmIff | crates/dns-warmer/src/warmer.rs:97-132 | the exact condition for any configuration |
| Warmer.ExpiryMovesForward | crates/dns-warmer/src/warmer.rs:102-121 | one caller at a time, a cached expiry never moves back, whatever times are passed |
| Warmer.EvictionIsInvisible | crates/dns-warmer/src/warmer.rs:146-150 | evictions anywhere in a run change no reply, no warmth and no lookup if no call is earlier than an eviction it follows |
| Warmer.EvictionIsSafeIff | crates/dns-warmer/src/warmer.rs:102-105 | an eviction is safe before a call, whatever is cached and asked, if and only if the call is not earlier |
| Warmer.EvictionCanBeNoticed | crates/dns-warmer/src/warmer.rs:102-105 | for every eviction ahead of the clock by the entry's lifetime, a run from an empty cache in which the eviction costs a second lookup |
| WarmerTasks.StepKeepsInv | crates/dns-warmer/src/warmer.rs:97-123 | every step of every task keeps: cached entries and replies come from completed lookups of that host, with the expiry their stamp earns |
| WarmerTasks.WarmMeansResolved | crates/dns-warmer/src/warmer.rs:91-132 | in every interleaving, a warm host was resolved for a `warm` stamped less than the ceiling ago, and a successful reply is that of a lookup of its host |
| WarmerTasks.HistoryIsReal | crates/dns-warmer/src/warmer.rs:110 | every recorded lookup answers a task that was begun with that host and stamp |
| WarmerTasks.LateInsertCanCool | crates/dns-warmer/src/warmer.rs:112-121 | for every clamped lifetime of at least a millisecond, a run in which a host is cold right after a `warm` for it returned |
| WarmerTasks.WarmAfterReturnIff | crates/dns-warmer/src/warmer.rs:97-132 | after any further steps of any tasks, a host is warm at the time passed by the `warm` that returned if and only if the inserts for it and the evictions among those steps leave a later expiry |
| WarmerTasks.ExpiryIsLastExpiry | crates/dns-warmer/src/warmer.rs:112-121 | after any run the cached expiry of a host is the one its last insert earned, unless a later eviction reached it |
| WarmerTasks.SparedStaysWarm | crates/dns-warmer/src/warmer.rs:112-121 | while other tasks insert no stale entry for the host and evict at no later time, it stays as warm as it was, or becomes warm by an insert |
| WarmerTasks.UninterruptedIsSequential | crates/dns-warmer/src/warmer.rs:97-123 | without interleaving, the three steps do what the sequential `warm` does |
| Pipeline.StepKeepsInv | crates/hydra-client/src/pipeline.rs:114-144 | every step of every refresh and pick keeps the pool a whole window and each pick a member of the pool it read |
| Pipeline.PoolIsAlwaysWhole | crates/hydra-client/src/pipeline.rs:114-144 | in every interleaving the pool is the whole window of an observed epoch and every pick is a member of the pool it read under the lock, absent only when that pool is empty |
| Pipeline.EveryPickIsLive | crates/hydra-client/src/pipeline.rs:162-177 | in a deployment, every picked SNI is in the subset of some epoch at most one away from an observed epoch, and every pick yields one when k is at least 1 |
| Pipeline.PoolMatchesIff | crates/hydra-client/src/pipeline.rs:114-129 | in every run, once no write waits to be published, the pool is the published epoch's if and only if the last writer is the last publisher or the clock readings of the two have the same window |
| Pipeline.PoolMatchesPublished | crates/hydra-client/src/pipeline.rs:114-129 | if no two refreshes with different epochs are ever between write and publish together, then whenever none is there the pool is the published epoch's window |
| Pipeline.PublishOrderMatters | crates/hydra-client/src/pipeline.rs:126-127 | of two refreshes that have both written, publishing in write order restores the match and the other order does if and only if the windows are equal |
| Pipeline.CrossedRefreshesGoStale | crates/hydra-client/src/pipeline.rs:114-129 | a run from the start that ends with nothing in flight, the newer epoch published and the older window in the pool, which matches if and only if the two windows are equal |
| StalePool.PoolCanStayBehind | crates/hydra-client/src/pipeline.rs:114-129 | for any start and any two later clock readings, a deployment and a run that end with nothing in flight and a pool different from the published epoch's window |
| Pipeline.CurrentRefreshIsIdle | crates/hydra-client/src/pipeline.rs:118 | a refresh that reads the published epoch changes nothing, so that state lasts for the epoch |
| Pipeline.PicksAreSticky | crates/hydra-client/src/pipeline.rs:162-177 | in every interleaving, after a pick for a destination that was a miss, every later pick for it presents the same SNI while such picks are made before min(now + ttl, u64::MAX) from pools that hold it |
| Pipeline.PicksAreSequential | crates/hydra-client/src/pipeline.rs:172-177 | however connections and refreshes interleave, SNIs, cache and draws are those of one selector asked one destination after another |
| Pipeline.PicksAnswerRequests | crates/hydra-client/src/pipeline.rs:168-177 | each pick answers the destination and time its connection asked with, in the order the selector was taken, without omission |
| Pipeline.Pipeline.constructor | crates/hydra-client/src/pipeline.rs:81-108 | the initial pool is the window of the initial epoch |
| Pipeline.Pipeline.MaybeRefreshEpoch | crates/hydra-client/src/pipeline.rs:114-129 | alone, it leaves the pool the window of the epoch just read |
| Pipeline.Pipeline.SniFor | crates/hydra-client/src/pipeline.rs:162-177 | alone, a connection presents the selector's choice from the current window, which the fallback never replaces when k is at least 1 |
| San.MatchesIffCovers | crates/health-checker/src/san.rs:22-50 | the string code holds if and only if both names are non-empty after normalisation and the label rules of section 6.4.3 of RFC 6125, as narrowed here, hold |
| San.MatchesByCharacters | crates/health-checker/src/san.rs:22-50 | the matcher with neither normalisation nor labels: final dots taken off both names, equal up to the case of ASCII letters, or one non-empty label in front of a tail of at least two labels |
| San.CaseIsIgnored | crates/health-checker/src/san.rs:23-25 | changing the case of ASCII letters on either side changes no answer |
| San.JoinOfLabels | crates/health-checker/src/san.rs:46 | joining the labels of a name gives back the name |
| San.LabelsOfSplit | crates/health-checker/src/san.rs:46 | splitting at the first dot takes off exactly the first label |
| San.NormalIgnoresDotAndCase | crates/health-checker/src/san.rs:23-25 | a trailing root dot is dropped, and normalising twice or after lowercasing changes nothing |
| San.WildcardIsOneLabel | crates/health-checker/src/san.rs:11-14 | a pattern that is a wildcard after normalisation stands for exactly one non-empty label |
| San.BareWildcardCoversNothing | crates/health-checker/src/san.rs:38-42 | a pattern that is a wildcard over a single label after normalisation covers nothing |
| San.MatchesAnyIffCovered | crates/health-checker/src/san.rs:17-19 | a certificate covers a name if and only if the label rules hold for one of its names |

## Left out

- Pipeline.PoolMatchesPublished: carries a hypothesis on the run, because the statement is false of the code without one, as `PoolCanStayBehind` shows; `PoolMatchesIff` is the exact statement without it.
- TunnelSystem.RelayIsFaithful: names over 255 bytes are excluded, because `LengthByteWraps` shows what the length cast does to them; a SOCKS5 client cannot send one, so `EndToEnd` needs no such hypothesis.
- Epochs.SkewedClientIsAccepted: is about a client that draws from its single-epoch subset; the pipeline draws from its window, for which `NeighbouringWindowsOverlap` gives the guaranteed common part.
- TLS, TCP, the accept loop and the inside of `copy_bidirectional`: the relay is modelled as moving any number of bytes at a time in each direction, without half-close or end of stream.
- Connection resets: a refused client that is still writing its header finishes the write in the two-party model; broken streams are covered party by party in `ExitNode.Handle` and `TunnelClient.Open`. Writes to the destination never fail.
- I/O error messages: every SOCKS5 failure of the stream itself is one case, and error texts are not modelled.
- `Target::display`, the text of a sticky key and DNS at the exit node: a dial is of a target, not of its printed form.
- Reading the clocks, and the random generators themselves.
- Cryptographic strength of HMAC, ChaCha20, X25519, HKDF, AES-GCM and certificate pins, and the `reality-tls` record code around them.
- f64 rounding, overflow and non-finite weights: weights are reals, so the finiteness test has no counterpart.
- Statistics of the sampler and the picker, which depend on the generator.
- SOCKS5 method negotiation: the methods are read and ignored by the code, so no conformance to section 3 of RFC 1928 is claimed beyond its format.
- `ActivePool::from_entries` with weights that are not positive: pools here come from a validated master list.
- `WarmerConfig` with the floor above the ceiling, on which `clamp` panics, and a poisoned mutex.
- Fairness of the mutex and the read-write lock: a step that waits for a lock is simply not enabled.
- `DnsWarmer::warm` from the connection path, the health checker beyond SAN matching, CIDR ranges, metrics, configuration files, key generation, installers and service units: glue, or settled by reading one branch.
