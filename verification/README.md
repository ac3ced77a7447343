# RoboControl verification

A Dafny model of the parts of RoboControl, a UDP transport stack in C, that carry its guarantees: the
retransmission engine, CUBIC congestion control in fixed point, the byte rings, the rate limiters, the
checksums and packet codecs, the streaming hash with HMAC, PBKDF2 and counter mode, and the session, route
and room structures of the relay and signaling servers.

State that the C code updates in place is a class with `modifies` clauses; each method is proved against a
specification function, and the results over whole runs are lemmas about those functions. `dafny verify
dfyconfig.toml` checks the whole project.

| file | component |
|---|---|
| `RetxSpec`, `RetxLaws`, `RetxQueue`, `RetxProtocol` | retransmission: specification, its laws entry by entry, the 4096-slot queue in place, runs against a lossy network |
| `CubeRoot`, `Cubic`, `CubicLaws` | integer cube root by Newton's method, CUBIC window and RTT filter, their laws over runs |
| `RingMachine`, `RingBuffer`, `WideRing` | single-producer single-consumer ring: interleavings, and both implementations |
| `TokenBucket`, `RateTable` | token bucket, and the hashed table of buckets with eviction |
| `Crc32`, `CrcTable`, `CrcCheck`, `PacketCodec` | CRC-32, its lookup table, known answers, packet framing |
| `HeaderCodec`, `HeaderBuffer` | the 32-byte transport header |
| `Sha256`, `KeyDerivation`, `CounterMode` | streaming SHA-256, HMAC, PBKDF2, counter mode |
| `RelayLru`, `LruLinks`, `RelayPool` | relay sessions: order of use, linked list, pool in place |
| `RelayRoutes`, `RelayTable`, `RelayBandwidth` | relay routes, their hashed chains in place, bandwidth window |
| `Signaling`, `SignalingServer`, `SignalingLaws` | rooms and clients: specification, server in place, what each buffer does |
| `Words`, `Residues`, `Lists` | machine words, remainders, lists |

## Conventions

- Unsigned C integers are integers with explicit reduction (`Wrap32`, `Wrap64`); signed division is `TruncDiv`,
  which truncates toward zero. CRC words are sequences of 32 bits.
- `double` is `real`. Each operation sees one timestamp, passed as a parameter; runs assume that it does not
  decrease where the property needs that.
- Memory allocation, the token check and freshly opened descriptors are parameters. Host byte order, where the
  code uses it, is little-endian.
- Hash functions are arbitrary functions into the bucket range (for the rate table the actual one), so nothing
  depends on how keys spread.
- Pointers into a fixed pool are slot numbers, with -1 for NULL. Singly linked chains are sequences; the doubly
  linked session list keeps its links.

## Results that differ from what one might expect

- A CUBIC controller whose window stays in 32 bits never grows it along the cubic curve: slow start ends only at
  the initial threshold of 2^32 - 1, and fast recovery is never left (`Cubic.CubicGrowthUnreachable`).
- The comment on the retransmission timeout promises [200, 60000]. The code takes every value below 1460 to 200, so a
  timeout of 300 ms, say, is shortened (`CubicLaws.SampleFilter`).
- Once sequence numbers wrap, an acknowledged entry can stay behind an unacknowledged one. After any run, an
  acknowledgement leaves exactly the entries above it if and only if no entry above it stands in front of one it
  covers (`RetxSpec.ReachableAckIff`, `RetxSpec.StuckReachable`).
- The comment on the bandwidth check speaks of a sliding window. A second admits up to twice the limit. Counting
  everything since the session began, a second still ahead is safe from exceeding the limit exactly when it begins
  where the current window ends, or when that window reaches into it and is full
  (`RelayBandwidth.SecondAheadExactly`; for seconds under way, `RelayBandwidth.NeverExceedsIff`).
- A rate-limiter key of more than 127 characters is never found again and gets a new full bucket on each check of
  any run (`RateTable.FoundAgainIffShort`, `RateTable.LongKeyNeverLimited`).
- Eviction cannot be observed if and only if an empty bucket refills before it can be evicted
  (`RateTable.UnobservableIff`).
- A PBKDF2 call with valid arguments ends with the whole key written if and only if there are fewer than 2^32 - 1
  blocks: at a reduced count of 2^32 - 1 the block counter wraps and the loop does not end, and beyond 32 bits the
  output is written in part (`KeyDerivation.DeriveKey`, `KeyDerivation.LoopEndsIff`, `KeyDerivation.WholeIff`).
- A join keeps every signaling client in the room it names exactly when the name is not empty and the room
  exists or can be created, or when nothing can be created and the client had no room (`Signaling.JoinKeepsIff`).
  Otherwise a client ends up listed twice, listed while free, or sending to a room it is not in
  (`Signaling.EmptyNameHarms`, `Signaling.LostRoomHarms`).
- After a relay creation every identifier in use still finds its own session and side, and nothing else is found,
  exactly when the creation is refused or its two identifiers are new and different and both routes find memory
  (`RelayRoutes.CreateAgreesIff`). Ending a session removes the routes of its identifiers even when another session
  uses them; the others are undisturbed exactly when none of them shares an identifier with a route stored
  (`RelayRoutes.EndUndisturbedIff`, `RelayRoutes.SharedIdentifierLost`).
- Session cleanup before the clock has reached the 300 s timeout ends every session (`RelayLru.CleanupExact`).
- Encoding a packet without a payload pointer but with a length sends what the output buffer held, behind two
  zeroed bytes (`PacketCodec.EncodeInto`).

## Model

| member | source | states |
|---|---|---|
| RetxQueue.Retx.constructor | src/core/rc_retransmit.c:99-107 | the queue starts empty, with no slot owning a copy |
| RetxQueue.Retx.Enqueue | src/core/rc_retransmit.c:134-160 | appends one entry owning a private copy of the packet unless the queue is full or memory is refused, across counter wrap |
| RetxQueue.Retx.RecordSent | src/core/rc_retransmit.c:373-389 | queues exactly the packets whose header asks for reliable delivery and those too short for a header, with the timeout the congestion controller has at that moment |
| RetxQueue.Retx.PopHead | src/core/rc_retransmit.c:191-196 | frees the copy of the oldest entry exactly once and drops it from the sequence |
| RetxQueue.Retx.MarkAcked | src/core/rc_retransmit.c:177-187 | marks exactly the live entries up to the acknowledged number and counts the newly marked ones |
| RetxQueue.Retx.DrainHead | src/core/rc_retransmit.c:189-200 | removes the leading acknowledged entries and no others |
| RetxQueue.Retx.ProcessAck | src/core/rc_retransmit.c:175-215 | the whole acknowledgement as a function of the abstract queue, with count and counters kept consistent |
| RetxQueue.Retx.ProcessSack | src/core/rc_retransmit.c:227-259 | keeps the first four blocks and marks the entries they report, as `RetxLaws.SackExact` says entry by entry, returning how many |
| RetxQueue.Retx.FastRetransmit | src/core/rc_retransmit.c:283-297 | lists the entry just after the third duplicate acknowledgement, if pending |
| RetxQueue.Retx.HoleRetransmit | src/core/rc_retransmit.c:306-328 | lists the pending entries below a selectively acknowledged range, up to the limit |
| RetxQueue.Retx.TimeoutRetransmit | src/core/rc_retransmit.c:330-354 | lists the expired pending entries not listed yet and times them anew from now with doubled timeouts, as `RetxLaws.EntriesAfterPass` and `RetxLaws.RestartedTimer` say entry by entry |
| RetxQueue.Retx.DetectLoss | src/core/rc_retransmit.c:278-357 | the three passes in order give the list and queue about which `RetxSpec.LossListExact` and the laws of `RetxLaws` are |
| RetxQueue.CounterSum | src/core/rc_retransmit.c:157-158 | the wrapping counter reached by n increments is the sum modulo 2^32 |
| RetxSpec.AckLeavesAboveIff | src/core/rc_retransmit.c:175-200 | an acknowledgement leaves exactly the entries above it if and only if none of them stands before a covered one, also with entries already stuck; increasing numbers suffice |
| RetxSpec.OpSettles | src/core/rc_retransmit.c:134-357 | every operation, with any numbers, leaves a queue whose head is not acknowledged and whose acknowledged entries stand only behind higher unacknowledged ones |
| RetxSpec.ReachableAckIff | src/core/rc_retransmit.c:134-357 | after any run of operations, with numbers that wrap or repeat, the same if and only if |
| RetxSpec.WrappedSequenceSticks | src/core/rc_retransmit.c:180-200 | a queue with wrapped numbers in which an acknowledged entry stays behind |
| RetxSpec.StuckReachable | src/core/rc_retransmit.c:134-200 | a run of two packets across the wrap and one acknowledgement that comes to such a queue |
| RetxSpec.RepeatedAckCounts | src/core/rc_retransmit.c:202-212 | n acknowledgements of one number in a row that mark nothing leave the duplicate count at n, whatever was counted before |
| RetxSpec.FastPassExact | src/core/rc_retransmit.c:283-297 | the first pass lists the first pending entry above the duplicated number, and nothing if there is none |
| RetxSpec.ThirdDuplicateRetransmits | src/core/rc_retransmit.c:202-297 | from the third repetition on, that entry heads the list of loss detection |
| RetxSpec.HolePassExact | src/core/rc_retransmit.c:306-328 | the second pass adds holes of at least half their timeout only, and all of them if the limit is not reached |
| RetxSpec.TimeoutPassExact | src/core/rc_retransmit.c:330-354 | the third pass adds distinct new numbers, each of a pending and expired entry, and all of those if the limit is not reached |
| RetxSpec.TimeoutPassRestarts | src/core/rc_retransmit.c:330-354 | with increasing numbers the pass restarts exactly the entries it lists; when and with what timeout is in `RetxLaws.EntriesAfterPass` |
| RetxSpec.LossListExact | src/core/rc_retransmit.c:278-357 | loss detection lists pending entries only, no more than the limit, every expired one below the limit; its timeout pass adds expired ones and repeats nothing |
| RetxSpec.AgeExact | src/core/rc_retransmit.c:335-336 | the truncated 32-bit age is the true age whenever that is below 2^32 ms |
| RetxSpec.BackoffDoubles | src/core/rc_retransmit.c:346-348 | one more timeout takes min(60000, 2^k rto) to min(60000, 2^(k+1) rto) |
| RetxSpec.CalcRto | src/core/rc_retransmit.c:83-89 | SRTT + max(200, 4 RTTVAR) kept within [200, 60000], as documented, while the sum fits in 32 bits; the range holds always |
| RetxLaws.AddedIff | src/core/rc_retransmit.c:330-354 | with room for all, the timeout pass adds exactly the unconfirmed entries not listed yet whose 32-bit age has reached their timeout |
| RetxLaws.EntriesAfterPass | src/core/rc_retransmit.c:341-350 | an entry the pass adds is sent now with min(60000, 2 rto); every other field and entry is as before |
| RetxLaws.RestartedTimer | src/core/rc_retransmit.c:330-354 | an entry listed now is not listed again before min(60000, 2 rto) has passed since, and is listed from then on |
| RetxLaws.EnqueuedTimer | src/core/rc_retransmit.c:134-160 | a packet just queued is appended with its bytes and first listed when its timeout has passed |
| RetxLaws.HoleListedIff | src/core/rc_retransmit.c:306-328 | with room for all, the second pass lists exactly the unconfirmed entries below some block whose age has reached half their timeout |
| RetxLaws.SackExact | src/core/rc_retransmit.c:227-259 | an entry is marked afterwards exactly if it was before, or is not acknowledged and one of the first four blocks contains its number; nothing else about any entry changes |
| RetxLaws.ReportedNotListed | src/core/rc_retransmit.c:227-357 | right after a selective acknowledgement loss detection lists nothing it reported |
| RetxLaws.NewlyAckedCounts | src/core/rc_retransmit.c:177-187 | the count of an acknowledgement is the number of entries at or below it that were not acknowledged, and exactly these are marked |
| RetxLaws.NewlySackedCounts | src/core/rc_retransmit.c:237-256 | the count of a selective acknowledgement is the number of unconfirmed entries its first four blocks report |
| RetxLaws.EarlyDuplicatesWait | src/core/rc_retransmit.c:202-297 | fewer than three repetitions list nothing in the first pass |
| RetxLaws.ProgressDisarms | src/core/rc_retransmit.c:202-297 | an acknowledgement that marks an entry clears the duplicate count and the first pass with it |
| RetxLaws.FastOnce | src/core/rc_retransmit.c:283-304 | after loss detection the first pass is not armed, and a count below three is kept |
| RetxLaws.DetectCounts | src/core/rc_retransmit.c:278-357 | the statistics grow by the packets of the first and of the third pass |
| RetxQueue.ReliableBit | src/core/rc_retransmit.c:378-385 | the request for reliable delivery is bit 4 of byte 27 |
| RetxProtocol.StepKeepsInvariant | src/core/rc_retransmit.c:134-357 | every step of sender, network and receiver keeps the protocol invariant |
| RetxProtocol.ReachableInvariant | src/core/rc_retransmit.c:134-357 | the invariant holds in every reachable state |
| RetxProtocol.ProtocolSafety | src/core/rc_retransmit.c:134-259 | over every run every queued number is live or received, and nothing is marked before the receiver has it |
| RetxProtocol.ReachableTimeouts | src/core/rc_retransmit.c:330-389 | in every reachable state each entry has min(60000, 2^k rto0), with rto0 in [200, 60000] from the controller when it was queued and k its timeouts since |
| RetxProtocol.ReachablePackets | src/core/rc_retransmit.c:134-160 | in every reachable state each entry holds the bytes its packet was transmitted with |
| RetxProtocol.SackedNeverRetransmitted | src/core/rc_retransmit.c:227-357 | after a truthful report in one of the first four blocks, no loss detection of any continuation lists the packet |
| RetxProtocol.ReachableAckExact | src/core/rc_retransmit.c:175-215 | in every reachable state an acknowledgement leaves exactly the entries above it |
| RetxProtocol.MissingPacketRetransmitted | src/core/rc_retransmit.c:278-357 | a queued packet the receiver lacks is pending, and is listed once its age reaches its timeout and the list has room |
| RetxProtocol.RetransmitsOnlyUnconfirmed | src/core/rc_retransmit.c:278-357 | loss detection never lists a packet known to be received |
| CubeRoot.StepNotBelowRoot | src/core/rc_congestion.c:45-52 | a Newton step never falls below the floor root |
| CubeRoot.StepFromAbove | src/core/rc_congestion.c:45-52 | from above, the distance to the root shrinks quadratically |
| CubeRoot.StepFromRoot | src/core/rc_congestion.c:45-52 | from the floor root a step stays or moves to the next integer, except from 7 |
| CubeRoot.InitialGuess | src/core/rc_congestion.c:37-43 | the doubling search ends without overflow at the largest power of two whose cube is at most x |
| CubeRoot.RefiningSteps | src/core/rc_congestion.c:45-52 | each Newton step keeps the distance bound of its stage, which shrinks quadratically |
| CubeRoot.Icbrt | src/core/rc_congestion.c:33-55 | for every x below 2^60 the result g has (g-1)^3 <= x < (g+1)^3, without overflow |
| Cubic.Controller.constructor | src/core/rc_congestion.c:99-124 | the initial state |
| Cubic.Controller.OnAck | src/core/rc_congestion.c:128-219 | counters, RTT filter, window of the phase and pacing, in that order; what they come to over runs is in `CubicLaws` |
| Cubic.Controller.OnLoss | src/core/rc_congestion.c:223-265 | multiplicative decrease with fast convergence, and a K within one of the cube root |
| Cubic.Controller.UpdateRtt | src/core/rc_congestion.c:269-299 | the integer RTT filter and its timeout |
| Cubic.ComputeK | src/core/rc_congestion.c:250-257 | K is within one of the cube root of the scaled (1 - beta) W_max / C |
| Cubic.CurveShape | src/core/rc_congestion.c:72-93 | W is non-decreasing in t, W(K) = W_max, at most W_max before K and at least it after |
| Cubic.WindowShape | src/core/rc_congestion.c:72-93 | the same for the computed window with its 1460 floor and 32-bit result |
| Cubic.WindowExactIff | src/core/rc_congestion.c:88-92 | the 32-bit cast preserves the curve if and only if the curve is below 2^32 |
| Cubic.RootError | src/core/rc_congestion.c:33-55 | the cube of K is within 3K^2+3K+1 of its argument |
| Cubic.CurveStartsAtBeta | src/core/rc_congestion.c:72-93 | W(0) is 717/1024 of W_max up to (3K^2+3K+1)/2^18 + 1; the evaluation is defined there and returns it unless it is below the floor |
| Cubic.CurveStartsAtReducedWindow | src/core/rc_congestion.c:223-257 | after a loss without fast convergence the curve starts at the reduced window, up to the same error and one unit |
| Cubic.FastConvergenceLowers | src/core/rc_congestion.c:229-257 | fast convergence puts W_max at no more than 1843/2048 of the window, so the curve starts below the reduced window |
| Cubic.TimeoutInRange | src/core/rc_congestion.c:269-299 | no event takes the timeout out of [200, 60000] |
| Cubic.StepKeepsInvariant | src/core/rc_congestion.c:128-299 | every event keeps the window at least 1460 and the phases consistent |
| Cubic.RunKeepsInvariant | src/core/rc_congestion.c:99-299 | so does every run that stays in 32 bits |
| Cubic.CubicGrowthUnreachable | src/core/rc_congestion.c:140-212 | no such run ever grows along the cubic curve, and after a loss it stays in fast recovery |
| Cubic.SrttBetweenSamples | src/core/rc_congestion.c:269-299 | over every run of samples SRTT stays between the least and the greatest |
| Cubic.SrttConverges | src/core/rc_congestion.c:269-299 | under constant RTT r, SRTT reaches [r-7, r] within its distance in samples and stays there |
| CubicLaws.WindowBeforeLoss | src/core/rc_congestion.c:140-212 | in every run that stays in 32 bits the window before any loss is 14600 plus all bytes acknowledged |
| CubicLaws.WindowAfterLoss | src/core/rc_congestion.c:140-265 | after a loss it is what the loss left plus all bytes acknowledged since |
| CubicLaws.LossReduces | src/core/rc_congestion.c:223-265 | a loss leaves 717/1024 of the window rounded down, or 1460, as window and threshold, and the plateau at the window or 1843/2048 of it |
| CubicLaws.CountersCount | src/core/rc_congestion.c:130-133 | over every run the statistics are the bytes acknowledged, the acknowledgements of any and the losses |
| CubicLaws.PacingFollows | src/core/rc_congestion.c:214-218 | the pacing rate is the window per second of smoothed RTT, rounded down |
| CubicLaws.SlowStartEnds | src/core/rc_congestion.c:141-167 | slow start ends exactly when the window reaches the threshold, and the curve starts at that window |
| CubicLaws.SampleFilter | src/core/rc_congestion.c:269-299 | SRTT and RTTVAR are the weighted means of section 2 of RFC 6298 rounded down, the timeout is min(60000, SRTT + 4 RTTVAR), or 200 where that is below 1460, and the least RTT is kept |
| CubicLaws.MinimumOfSamples | src/core/rc_congestion.c:273-276 | over every run of samples the least RTT is the least of them |
| CubicLaws.CurveCubic | src/core/rc_congestion.c:72-93 | n units of 64 after K the curve is n^3 above W_max, and as far below before |
| CubicLaws.TcpTargetFormula | src/core/rc_congestion.c:182-186 | the Reno-friendly target is a number of segments less than two below beta W_max + 3 (1 - beta) / (1 + beta) t |
| CubicLaws.AvoidanceStep | src/core/rc_congestion.c:178-200 | one acknowledgement advances the time by one and the window by its share of a segment below the larger target and half of that above, one byte at least |
| RingMachine.SlotOfPosition | src/core/rc_conn.c:79-89 | masking the wrapped counter gives the slot of the stream position |
| RingMachine.LevelsExact | src/core/rc_conn.c:74-77 | the wrapped counters give the exact fill level |
| RingMachine.StepKeepsInvariant | src/core/rc_conn.c:72-119 | every atomic step of producer or consumer keeps the stored window intact |
| RingMachine.InterleavingSafety | src/core/rc_conn.c:72-119 | in every interleaving the bytes read are a prefix of the bytes accepted and unread bytes are intact |
| RingMachine.TransferSizes | include/ringbuf.h:45-83 | how much a write takes, partial or all-or-nothing, and a read returns; no transfer gets stuck |
| Residues.MaskIsRemainder | src/core/rc_conn.c:79-80 | masking with size minus one is the remainder |
| RingBuffer.NextPow2 | src/core/rc_conn.c:26-36 | the least power of two not below the argument, 0 where there is none in 32 bits |
| RingBuffer.Ring.constructor | src/core/rc_conn.c:40-54 | an empty ring of the rounded size, 4096 for a request of 0; a request above 2^31 gives size 0 |
| RingBuffer.Ring.Levels | src/core/rc_conn.c:74-77 | used and free bytes from the wrapped counters |
| RingBuffer.Place | src/core/rc_conn.c:79-89 | the one or two copies of a write are copy steps of the machine |
| RingBuffer.Fetch | src/core/rc_conn.c:107-115 | likewise for a read |
| RingBuffer.Ring.Write | src/core/rc_conn.c:72-96 | appends the longest prefix that fits to the contents |
| RingBuffer.Ring.Read | src/core/rc_conn.c:100-119 | removes and returns the oldest bytes |
| WideRing.RoundUp | include/ringbuf.h:26-27 | the least power of two not below the size, or that the doubling loop does not end |
| WideRing.DoublingEndsIff | include/ringbuf.h:26-27 | in 64 bits the loop ends exactly for sizes up to 2^63 |
| WideRing.Wide.constructor | include/ringbuf.h:24-38 | an empty ring of the rounded size with its counters at zero |
| WideRing.Wide.Available | include/ringbuf.h:45-47 | free bytes from the wrapped counters |
| WideRing.Wide.Write | include/ringbuf.h:53-68 | appends everything or nothing, counting written or dropped bytes |
| WideRing.Wide.Read | include/ringbuf.h:70-83 | removes and returns the oldest bytes, counting them |
| TokenBucket.Limiter.constructor | include/rate_limit.h:23-32 | a full bucket |
| TokenBucket.Limiter.Check | include/rate_limit.h:34-55 | the answer and level of `TokenBucket.AllowsIff` and `TokenBucket.CheckExact`, and both counters |
| TokenBucket.AdmittedBalance | include/rate_limit.h:34-55 | admitted cost plus what is left is at most what was there plus what was earned |
| TokenBucket.SegmentBound | include/rate_limit.h:34-55 | every contiguous segment of every run admits at most the bucket size plus the refill over its duration |
| TokenBucket.LevelBounded | include/rate_limit.h:34-55 | the level stays within [0, max] |
| TokenBucket.AllowsIff | include/rate_limit.h:36-48 | a request is admitted exactly when its cost is at most the maximum and at most the level plus what the rate has earned since the last request |
| TokenBucket.CheckExact | include/rate_limit.h:36-53 | the level afterwards is the level and earnings, capped at the maximum, less an admitted cost |
| TokenBucket.AdmittedExactly | include/rate_limit.h:34-55 | in every run in which no request finds the bucket overflowing, admitted cost plus what is left equals what was there plus what was earned |
| TokenBucket.SteadyAdmitted | include/rate_limit.h:34-55 | requests each within what was earned since the one before are all admitted, whatever the level to begin with |
| RateTable.RateLimiterTable.constructor | include/rate_limit.h:83-93 | an empty table |
| RateTable.RateLimiterTable.FindEntry | include/rate_limit.h:110-118 | the first entry of the chain with that key |
| RateTable.RateLimiterTable.Check | include/rate_limit.h:104-140 | finds the bucket of a key or creates a full one and answers as `TokenBucket.AllowsIff` says; denies when memory is refused |
| RateTable.RateLimiterTable.CleanChain | include/rate_limit.h:149-158 | unlinks exactly the entries unused for longer than the age |
| RateTable.RateLimiterTable.Cleanup | include/rate_limit.h:142-161 | does so for every chain, at most once per interval |
| RateTable.CheckChainFinds | include/rate_limit.h:104-140 | a check changes only what its chain knows about its key |
| RateTable.KeptFinds | include/rate_limit.h:149-158 | eviction forgets a key exactly when its entry is too old |
| RateTable.CleanupExact | include/rate_limit.h:142-161 | a cleanup sooner than the interval does nothing; otherwise an entry stays exactly when it was used within the age |
| RateTable.CheckLocal | include/rate_limit.h:104-140 | a check never affects another key, for any keys and tables, unless that is the 127 characters a longer key is stored as |
| RateTable.EvictionUnobservable | include/rate_limit.h:104-161 | every run on the table answers as the same run on a plain map without cleanup, for short keys and ages at which an empty bucket has refilled |
| RateTable.ProbeTells | include/rate_limit.h:104-161 | a run of two checks around a cleanup that answers differently at any other age |
| RateTable.UnobservableIff | include/rate_limit.h:104-161 | eviction at an age is unobservable over all runs if and only if a bucket refills from empty before it can be evicted |
| RateTable.FoundAgainIffShort | include/rate_limit.h:112-130 | after any run, a key is found again after its check exactly when it has at most 127 characters |
| RateTable.LongKeyNeverLimited | include/rate_limit.h:104-140 | in any run, every check of a longer key meets a new full bucket |
| Crc32.TableStep | src/core/rc_proto.c:64-66 | the table-driven step is the division of one byte |
| Crc32.StepsInjective | src/core/rc_proto.c:49-51 | the register steps are injective |
| Crc32.CrcIsReference | src/core/rc_proto.c:59-68 | the CRC is the bit-at-a-time polynomial division of every message |
| Crc32.RunInjective | include/proto.h:132-151 | feeding the same bytes keeps different registers different |
| Crc32.BurstDetected | include/proto.h:132-151 | two messages that differ only within four consecutive bytes leave different registers |
| Crc32.ChecksumIffResidue | include/proto.h:202-206 | a message followed by a checksum leaves one residue exactly when the checksum is its own |
| Crc32.ChecksumDetectsBurst | include/proto.h:202-206 | a burst of four bytes across message and checksum cannot match again |
| Crc32.FieldRoundTrip | include/proto.h:179-204 | a checksum read back from its four bytes is the one written |
| CrcTable.TableEntry | src/core/rc_proto.c:48-52 | one table entry is the division of its index |
| CrcTable.Table.Init | src/core/rc_proto.c:44-55 | fills the table once and leaves it alone afterwards |
| CrcTable.Table.LookupIsStep | src/core/rc_proto.c:64-66 | looking up a low byte divides it through |
| CrcTable.Table.Compute | src/core/rc_proto.c:59-68 | the computed checksum is the reference division of the buffer |
| CrcCheck.PublishedEntries | src/core/rc_proto.c:44-55 | six entries of the published table for 0xEDB88320 |
| CrcCheck.CrcOfOnes | src/core/rc_proto.c:59-68 | the checksum of four bytes 0xFF is 0xFFFFFFFF |
| HeaderCodec.UnpackPack | src/core/rc_proto.c:87-135 | unpacking undoes packing, whatever follows |
| HeaderCodec.PackUnpack | src/core/rc_proto.c:87-135 | packing undoes unpacking: the 32 bytes carry the nine fields and nothing else |
| HeaderCodec.SliceOfPack | src/core/rc_proto.c:87-102 | where each field lies, high byte first |
| HeaderCodec.AcceptedBytes | src/core/rc_proto.c:106-135 | a header is accepted exactly when it begins with 52 4F 42 4F 00 01 |
| HeaderBuffer.PackInto | src/core/rc_proto.c:87-102 | writes the packed header into a buffer and changes nothing behind it |
| HeaderBuffer.UnpackFrom | src/core/rc_proto.c:106-135 | fills all fields, and accepts exactly the right magic and version |
| PacketCodec.EncodeInto | include/proto.h:154-182 | writes the encoding with the payload over the last two bytes of the header struct, or refuses and leaves the buffer alone |
| PacketCodec.Seal | include/proto.h:177-179 | appends the checksum of everything before it |
| PacketCodec.DecodeFrom | include/proto.h:184-216 | accepts exactly the complete packets with matching magic, version and checksum |
| PacketCodec.CheckHeader | include/proto.h:188-200 | the header checks decide completeness |
| PacketCodec.Verify | include/proto.h:202-206 | the checksum test decides integrity |
| PacketCodec.DecodeEncode | include/proto.h:154-216 | decoding undoes encoding, whatever follows, and says where the next packet starts |
| PacketCodec.EncodeDecode | include/proto.h:154-216 | what is accepted is the encoding of the result, up to the reserved byte |
| PacketCodec.FramingRoundTrip | include/proto.h:154-216 | a stream of packets is read back packet by packet, every byte consumed |
| PacketCodec.BurstRejected | include/proto.h:184-206 | a packet corrupted within four consecutive bytes outside its length field is rejected |
| Sha256.BlocksSplit | include/crypto.h:106-109 | whole blocks may be folded first and the rest after |
| Sha256.Context.constructor | include/crypto.h:81-88 | nothing absorbed yet |
| Sha256.Context.Update | include/crypto.h:90-111 | the absorbed message grows by the data, however the buffer stands |
| Sha256.Context.MarkEnd | include/crypto.h:117-123 | the end mark, with a block of its own when the length no longer fits |
| Sha256.Context.Final | include/crypto.h:113-136 | the result is the fold of the compression function over the padded message |
| Sha256.HashChunks | include/crypto.h:138-143 | any division of a message into updates gives the digest of the whole |
| Sha256.SerializeWords | include/crypto.h:131-134 | bytes 4i to 4i + 3 of the digest are word i, high byte first |
| Sha256.InitialWords | include/crypto.h:81-88 | the initial words are the fractions of the square roots of the first eight primes |
| Sha256.PadExact | include/crypto.h:113-129 | the padded message is the message, 0x80, fewer than 64 zeros and the length in bits in 8 bytes |
| Sha256.PadInjective | include/crypto.h:113-129 | different messages are padded differently |
| KeyDerivation.HmacSha256 | include/crypto.h:146-177 | HMAC as defined in section 2 of RFC 2104 |
| KeyDerivation.NormalizeKey | include/crypto.h:153-160 | long keys are hashed, short ones filled with zeros |
| KeyDerivation.HmacExact | include/crypto.h:146-177 | the two nested digests with each key byte combined with 0x36 inside and 0x5C outside |
| KeyDerivation.DeriveBlock | include/crypto.h:190-205 | one block is the exclusive-or of the iterated outputs |
| KeyDerivation.KeyByte | include/crypto.h:189-211 | byte r of block q with one iteration is that of HMAC over salt and q + 1; each further iteration adds HMAC applied once more |
| KeyDerivation.DeriveKey | include/crypto.h:180-213 | the error exactly for its invalid arguments, no end exactly when the block loop has none, and otherwise PBKDF2 of section 5.2 of RFC 8018; it ends with the whole key written if and only if arguments are valid and there are fewer than 2^32 - 1 blocks |
| KeyDerivation.LoopEndsIff | include/crypto.h:189 | the wrapping 32-bit counter gets past the blocks, after one pass for each, exactly when there are not 2^32 - 1 of them |
| KeyDerivation.WholeIff | include/crypto.h:185-211 | the loop ends and covers the whole output if and only if the block count, not reduced, is below 2^32 - 1 |
| KeyDerivation.ShorterIsPrefix | include/crypto.h:180-213 | a shorter derived key is a prefix of a longer one |
| CounterMode.IncrementCounter | include/crypto.h:337-341 | the in-place increment is the next counter |
| CounterMode.NextValue | include/crypto.h:337-341 | as a number the counter grows by one modulo its width |
| CounterMode.NextBlockNumber | include/crypto.h:344-361 | below 2^32 blocks the nonce part never changes |
| CounterMode.CryptWith | include/crypto.h:344-363 | the output is the counter-mode encryption of the input |
| CounterMode.CryptAt | include/crypto.h:344-363 | each byte is masked by the cipher of the nonce and its block number |
| CounterMode.CryptTwice | include/crypto.h:344-363 | decryption is the same operation |
| RelayPool.Pool.constructor | src/relay/relay_server.c:336-357 | an empty pool, identifiers starting at 1 |
| RelayPool.Pool.Touch | src/relay/relay_server.c:149-162 | the session moves or enters at the head, links consistent both ways |
| RelayPool.Pool.Unlink | src/relay/relay_server.c:152-155 | joining the neighbours removes exactly one position |
| RelayPool.Pool.PushFront | src/relay/relay_server.c:157-161 | the session becomes the head, and the tail of an empty list |
| RelayPool.Pool.Create | src/relay/relay_server.c:187-214 | fills the first free slot and puts it at the head; counts and peak follow; nothing happens when full |
| RelayPool.Pool.Destroy | src/relay/relay_server.c:216-240 | takes exactly that session off the list |
| RelayPool.Pool.Forward | src/relay/relay_server.c:437-440 | records the activity and moves the session to the head |
| RelayPool.Pool.CleanupStale | src/relay/relay_server.c:307-318 | the walk from the tail ends exactly the sessions older than the deadline |
| LruLinks.JoinKeeps | src/relay/relay_server.c:152-155 | joining the neighbours keeps every other link consistent |
| LruLinks.PushKeeps | src/relay/relay_server.c:157-161 | so does linking a session before the head |
| RelayLru.ApplyKeeps | src/relay/relay_server.c:149-318 | create, forward, destroy and cleanup keep the list equal to the active sessions by last activity |
| RelayLru.CleanupExact | src/relay/relay_server.c:307-318 | cleanup keeps exactly the sessions within the timeout, in order, and none before the clock reaches it |
| RelayLru.EveryRunEnumerates | src/relay/relay_server.c:149-318 | after every run the list holds the active sessions and nothing else, once each, most recent first, and is as long as there are active slots |
| RelayTable.Table.constructor | src/core/rc_relay.c:170-200 | no sessions and no routes; 100000 slots by default |
| RelayTable.Table.AddRoute | src/core/rc_relay.c:247-265 | the new route becomes the first of its chain, or nothing happens without memory |
| RelayTable.Table.Lookup | src/core/rc_relay.c:274-289 | the newest route of that identifier |
| RelayTable.Table.RemoveRoutes | src/core/rc_relay.c:297-313 | removes every route of that identifier and no other |
| RelayTable.Table.CreateSession | src/core/rc_relay.c:330-399 | takes the first free slot and adds both routes, or refuses when full |
| RelayTable.Table.DestroySession | src/core/rc_relay.c:407-432 | ends the first active session of that identifier |
| RelayTable.Table.PurgeIdle | src/core/rc_relay.c:611-638 | visits every slot and counts the sessions it ends |
| RelayRoutes.CreateKeeps | src/core/rc_relay.c:330-399 | creation keeps every route pointing to an active session of the stated side, and the count |
| RelayRoutes.EndKeeps | src/core/rc_relay.c:415-421 | so does ending a session |
| RelayRoutes.FullExactly | src/core/rc_relay.c:341-359 | a slot is free exactly when the counter is below the maximum |
| RelayRoutes.PurgeExact | src/core/rc_relay.c:611-638 | purging ends exactly the active sessions whose 64-bit age exceeds the timeout |
| RelayRoutes.LookupIsMap | src/core/rc_relay.c:274-289 | where every identifier in use finds its own session and side and nothing else is found, lookup is the map of both directions |
| RelayRoutes.CreateAgreesIff | src/core/rc_relay.c:330-399 | creation keeps that exactly when it is refused, or its identifiers are new and different and both routes find memory |
| RelayRoutes.FirstAfterEnd | src/core/rc_relay.c:416-420 | ending a session makes its two identifiers find nothing and leaves what every other identifier finds |
| RelayRoutes.EndUndisturbedIff | src/core/rc_relay.c:416-420 | the other active sessions find what they found before exactly when none of them uses one of the two identifiers with a route stored |
| RelayRoutes.SharedIdentifierLost | src/core/rc_relay.c:330-432 | two sessions created with one identifier in common, the older ended: the newer is active and no longer found by it |
| RelayRoutes.RunConsistent | src/core/rc_relay.c:247-432 | after every run every route leads to an active session and the counter equals the number of active slots |
| RelayRoutes.RunMapped | src/core/rc_relay.c:247-432 | after every orderly run lookup agrees with the map of both directions |
| RelayBandwidth.Meter.constructor | src/core/rc_relay.c:362-371 | an empty window starting now |
| RelayBandwidth.Meter.Check | src/core/rc_relay.c:448-465 | restarts the window after a second, then admits or drops against the limit |
| RelayBandwidth.AnySecondBounded | src/core/rc_relay.c:448-465 | any half-open second of any run admits at most twice the limit |
| RelayBandwidth.WorstBounds | src/core/rc_relay.c:448-465 | no continuation adds more to a second than the stated worst case of the window, the clock and the second |
| RelayBandwidth.WorstReached | src/core/rc_relay.c:448-465 | and some continuation adds exactly that |
| RelayBandwidth.NeverExceedsIff | src/core/rc_relay.c:440-465 | counting everything since the session began, a second stays within the limit under every continuation exactly when what it has admitted and that worst case do |
| RelayBandwidth.SecondAheadExactly | src/core/rc_relay.c:440-465 | for a second that has not begun: exactly when it begins where the window ends, or a full window reaches into it |
| RelayBandwidth.BytesConserved | src/core/rc_relay.c:448-465 | bytes offered are bytes admitted plus bytes dropped |
| RelayBandwidth.AdmitsIff | src/core/rc_relay.c:448-465 | a packet is admitted exactly when it fits what the current second, or a new one, has left of 6553600 bytes |
| RelayBandwidth.LightTrafficPasses | src/core/rc_relay.c:448-465 | traffic of no more than the limit in all is never dropped, however it falls on the windows |
| SignalingServer.Hub.constructor | src/signaling/signaling_server.c:429-441 | all clients free, no rooms |
| SignalingServer.Hub.FindRoom | src/signaling/signaling_server.c:168-177 | finds the room of that name in its chain if and only if there is one |
| SignalingServer.Hub.CreateRoom | src/signaling/signaling_server.c:179-190 | adds an empty room, or nothing without memory |
| SignalingServer.Hub.Unlist | src/signaling/signaling_server.c:195-204 | unlinks the client from the room its name finds |
| SignalingServer.Hub.JoinRoom | src/signaling/signaling_server.c:192-217 | leaves the old room, then enters the new one if it exists or can be created |
| SignalingServer.Hub.AllocClient | src/signaling/signaling_server.c:221-239 | takes the first free client for a descriptor |
| SignalingServer.Hub.FreeClient | src/signaling/signaling_server.c:241-267 | leaves the room, forgets the descriptor and returns the client to the free list |
| SignalingServer.Hub.BroadcastRoom | src/signaling/signaling_server.c:274-286 | sends to the authenticated members other than the sender, in list order |
| SignalingServer.Hub.HandleMessage | src/signaling/signaling_server.c:288-371 | the effect, the reply and the recipients of every received buffer, which the lemmas of `SignalingLaws` state on its bytes |
| SignalingServer.FindReplaced | src/signaling/signaling_server.c:168-177 | updating a room changes what its own name finds and nothing else |
| Signaling.FreeKeeps | src/signaling/signaling_server.c:241-267 | freeing a client keeps the invariant of pool and rooms |
| Signaling.LeaveKeeps | src/signaling/signaling_server.c:339-352 | so does leaving a room |
| Signaling.JoinKeepsIff | src/signaling/signaling_server.c:192-217 | joining keeps it exactly when the name is not empty and the room can be had, or there was no room to lose |
| Signaling.EmptyNameHarms | src/signaling/signaling_server.c:192-267 | after a join with an empty name, a second one lists the client twice, another room lists it in two rooms, and freeing it leaves it both free and listed |
| Signaling.EmptyNameRepaired | src/signaling/signaling_server.c:192-352 | leaving right after the join with an empty name restores the invariant |
| Signaling.LostRoomHarms | src/signaling/signaling_server.c:192-286 | after a failed creation the client is out of its old room and still sends to it |
| Signaling.JoinObservedIff | src/signaling/signaling_server.c:192-286 | after a join the client is in the room it sends to and can be freed cleanly, exactly when the join was safe |
| Signaling.StepKeepsIff | src/signaling/signaling_server.c:288-371 | every event keeps the invariant exactly when it is no unsafe join |
| Signaling.ReachableMembership | src/signaling/signaling_server.c:168-371 | in every reachable state the room a client names exists and holds it, no other list does, members occur once and are authenticated, counts equal lengths, active plus free is the pool |
| Signaling.BroadcastExact | src/signaling/signaling_server.c:274-286 | in every reachable state a broadcast reaches each other member of the sender's room once and no one else |
| SignalingLaws.CStringExact | src/signaling/signaling_server.c:306-334 | a string in a buffer is the bytes before the first zero |
| SignalingLaws.Decoded | src/signaling/signaling_server.c:291-371 | which bytes of a buffer decide what it is, and which are the token and the room name |
| SignalingLaws.RelayReaches | src/signaling/signaling_server.c:354-359 | in every reachable state a buffer of kind 1, 2 or 3 from an authenticated client in a room goes once to each other client of that room and to no one else |
| SignalingLaws.OnlyRelaysReach | src/signaling/signaling_server.c:288-371 | no other buffer, and none from another client, goes to anyone |
| SignalingLaws.Answered | src/signaling/signaling_server.c:304-366 | kind 7 is acknowledged or refused by its token, kind 8 is answered, and nothing else is |
| SignalingLaws.JoinRoom | src/signaling/signaling_server.c:192-338 | kind 4 from an authenticated client: its room, every list and every other client afterwards |
| SignalingLaws.LeaveRoom | src/signaling/signaling_server.c:339-353 | kind 5 from an authenticated client: it names no room, is in no list, and all else is as before |
| SignalingLaws.AuthRefused | src/signaling/signaling_server.c:304-327 | kind 7 with a token that does not verify: the client is free, its descriptor unmapped, in no list |
| SignalingLaws.OtherwiseRecord | src/signaling/signaling_server.c:288-371 | every other buffer sets the authentication or the time of activity of one client, or nothing |

## Left out

- The SHA-256 compression function and the AES block cipher: the results hold for every function in their place.
- Sequence numbers that wrap in the protocol runs: comparisons are plain, so runs use increasing numbers; what goes wrong otherwise is shown separately.
- Overflow of congestion-window additions: runs that leave 32 bits are excluded by a precondition.
- CubicLaws.SampleFilter: requires SRTT, RTTVAR and samples below 2^29 ms, because beyond that the sums of the filter can wrap; `Cubic.TimeoutInRange` has no such bound.
- CubicLaws.TcpTargetFormula: requires products that fit in 32 bits, because the code reduces each of them.
- CubicLaws.AvoidanceStep: requires a product of segment and bytes that fits in 32 bits, for the same reason; the sum may wrap.
- CubicLaws.PacingFollows: requires a rate that fits in 32 bits, to which the code casts it.
- Sha256.PadExact: requires a length in bits that fits in 64 bits, as FIPS 180-4 does.
- WideRing.Wide.constructor: requires a size up to 2^63, because above it the doubling loop does not end (`WideRing.DoublingEndsIff`) and there is no ring.
- Memory ordering: ring steps are sequentially consistent.
- Update in place of the chains of the rate table, routes, rooms and free list: they are sequences, so aliasing of their links is not modelled.
- The hash chains and peer addresses of relay sessions, and finding a session by address.
- Stored authentication tokens, room creation times and client identifiers of the signaling server.
- SignalingServer.Hub.HandleMessage: requires lists that hold no client twice, no client of another list and no free one, because otherwise the links of the original form cycles or merge and are no sequences; it does not require the room invariant.
- KeyDerivation.DeriveKey: does not say what a call that does not end writes meanwhile.
- Fields of relay sessions that only count traffic, and packet rewriting on forwarding.
- The timer wheel, the handshake and the connection pool.
- Checksum checking in packet validation, which the header comment mentions and the code does not do.
- Printing and parsing of tokens; the header checks of `rc_pkt_validate` beyond unpacking.
- The floating-point CUBIC of `include/congestion.h`.
- Sockets, event loops, Redis, HTTP and JSON helpers, configuration, billing and authentication services, and the OpenSSL wrappers: input and output, foreign calls or plain string handling.
