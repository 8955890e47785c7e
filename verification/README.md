# glider: verified models of its protocol cores

glider is a forward proxy. This project models the parts of it whose correctness is hard to see
from the code: the stream multiplexer smux, the forwarder group with its rotation and retries,
the DNS cache and message codec, the checksums and packets of the ShadowsocksR protocol
auth_sha1_v4, the shadowaead and WebSocket stream codecs, the DHCP address pool and the anytls
session pool. Each module states what its part is for and proves it for all inputs, all runs or
all reachable states.

Code that changes state step by step is modelled by classes and methods with loops, each proved
equal to a function of the old state; concurrent code by state machines whose steps are the
atomic operations and critical sections of the source, in any order. Fixed-width counters wrap
explicitly (module `Words`); everything else is unbounded.

| module | models |
|---|---|
| `SmuxWindow`, `SmuxBytes`, `SmuxStream` | flow control of a version 2 stream: both ends as one state machine, with lengths and with the bytes; the reads and writes as methods |
| `SmuxTokens` | the receive bucket of a session, its streams map and its stream ids |
| `SmuxShaper` | the order in which queued frames are sent: heap, comparison, loop |
| `Rotation`, `ForwarderGroup` | which forwarders are in use, under racing status changes; scheduling and dial retries |
| `CacheSpec`, `DnsCache` | the LRU cache: what it should answer, and the linked list with its map |
| `DnsName`, `DnsMessage` | names with compression, and messages |
| `Crc32`, `Adler32`, `AuthSha1V4` | the checksums and the packet stream built on them |
| `ShadowAead`, `WsFrame` | encrypted chunks and WebSocket frames under any writes and reads |
| `BufferPool` | the capacity of pooled buffers, on which some panics of the codecs turn |
| `DhcpPool` | leases, static bindings, release and expiry |
| `AnyTlsPool`, `AnyTlsClient`, `AnyTlsShutdown` | ownership of sessions in the idle pool; its critical sections as methods, each a run of that state machine; closing the client under racing calls |
| `Words`, `Bytes`, `Seqs` | 32-bit words, numbers as bytes, sums and concatenations |

## What the proofs found

- A version 2 smux stream can stop for good. The reader announces what it consumed by its
  counter, and 0 stands for "nothing to announce"; when the counter lands on a multiple of 2^32
  the announcement is lost. `DeadlockIff` shows that a run ends in a writer that waits for ever,
  with every byte read, exactly when MaxFrameSize plus half of MaxStreamBuffer (at least 1) is
  more than MaxStreamBuffer. The default sizes are just on the safe side. In states where the
  counter has not wrapped to 0, `DrainedWindowIsOpen` rules the stop out for every configuration.
- The forwarders' enabled flags are not covered by the group's lock. If a flag flips between the
  two scans of `init()` a handler can leave the rotation empty although a forwarder is enabled;
  `TornScansCanStrand` gives a run after which the group stays on a lower priority with no handler
  left to notice. `HandleConsistentIff` says what a handler must read to do this, and
  `RotationIsRightAtQuiescence` which runs end wrong. In the same way a second scan may take in
  forwarders above the chosen priority (`TornScanMixes`, `OnePriorityIff`).
- Round robin skips and repeats when its 32-bit counter wraps: as many picks as there are
  forwarders visit all of them exactly when the counter does not wrap among them or their number
  divides 2^32 (`RoundRobinVisitsAllIff`, `RoundRobinRepeats`).
- A DNS name is read back as written exactly when its labels have 1 to 63 bytes
  (`NameIsReadIff`); the root name is written as two zero bytes and read as one (`RootIsMisread`).
- Reading a compressed name never returns exactly when its pointers lead back to a place they
  came from (`EndlessIff`, with `LoopingQuestion`); no name needs more pointers than the message
  has bytes.
- Four decoders panic on some inputs, and the models say exactly on which: `DnsMessage.PanicsIff`
  (inputs `CutQuestion`, `CutRecord`), `AuthSha1V4.PanicsIff` (`LongPadding`), `WsFrame.PanicsIff`
  (`NegativeLength`) and `ShadowAead.ReadPanicsIff` (`LongChunkPanics`). Go slices reach up to the
  capacity of their buffer, so the capacity is part of these conditions: over UDP a DNS message
  panics exactly when it ends inside its question and claims answers (`UdpPanicsIff`).
- A closed anytls session can stay on the idle list after its hook has run, if it dies between the
  check of a closing stream and the append (`StaleIff`, `DeadCanStayIdle`). It is never handed out.
- Closing the anytls client can leave a session open: a call of CreateStream that has seen the
  context open may put a session into the table after Close has emptied it
  (`StreamOutlivesClose`). `CloseIsCompleteIff` shows that Close closes every session exactly when
  no call is between these two points as it empties the table; `SurvivorsAreHeld` that whatever
  survives has a goroutine that is about to open a stream on it, uses it, or will close it.

## Model

| member | source | states |
|---|---|---|
| SmuxWindow.ConsumeCases | pkg/smux/stream.go:177-196 | A read of n bytes announces the whole count exactly when the unannounced bytes reach half the buffer or the count stood on a multiple of 2^32, and otherwise leaves them all in incr; an announcement of a multiple of 2^32 is lost. |
| SmuxWindow.StepKeepsInv | pkg/smux/stream.go:151-205 | Every step of writer, wire and reader keeps the counters equal to the unbounded counts, the updates in order and the writer's budget within the window. |
| SmuxWindow.ReachableInv | pkg/smux/stream.go:389-485 | The invariant holds in every state that any interleaving reaches. |
| SmuxWindow.WindowSafety | pkg/smux/stream.go:389-485 | Bytes sent and not yet read never exceed the larger of MaxStreamBuffer and the initial window, are exactly those in flight and buffered, ErrConsumed never happens, and the wrapped inflight is the true one. |
| SmuxWindow.AdmitFills | pkg/smux/stream.go:416-441 | From wrapped counters less than half a turn apart the writer computes their true difference and the true window, and takes as many bytes as fit it: all, the window, or none. |
| SmuxWindow.WriterHasNoLostWakeup | pkg/smux/stream.go:468-480 | A writer parked with an open window has an update notification queued or on its way. |
| SmuxWindow.DrainedWindowIsOpen | pkg/smux/stream.go:427-441 | When everything is read and no update is in flight the writer's window is positive, unless the counter has just wrapped to 0 and frames are larger than the buffer less half of it. |
| SmuxWindow.DeadStaysDead | pkg/smux/stream.go:468-480 | From a drained state with a parked writer, a closed window and no update, no step leads out. |
| SmuxWindow.Push | pkg/smux/stream.go:177-196 | From rest, n bytes can be sent and read in one go, and what stays unannounced is 0 or n more. |
| SmuxWindow.AnnouncedAt | pkg/smux/stream.go:177-196 | With frames larger than the buffer less half of it, every count from one half on is reachable with all of it announced. |
| SmuxWindow.LoseAnnouncement | pkg/smux/stream.go:177-205 | A state is reachable in which 2^32 bytes are read, nothing is left and a whole window is unacknowledged. |
| SmuxWindow.Stall | pkg/smux/stream.go:389-485 | With such frames a dead state is reachable. |
| SmuxWindow.DeadlockIff | pkg/smux/mux.go:74-105 | A version 2 stream can deadlock exactly when frame size plus half the buffer exceeds the buffer. |
| SmuxBytes.RunsProject | pkg/smux/stream.go:151-205 | With any bytes in its writes a run goes exactly where it goes in the flow control, and contents keep the lengths counted there. |
| SmuxBytes.StepKeepsTrail | pkg/smux/stream.go:445-462 | Every step of writer, wire and reader keeps the bytes read, buffered, on the wire and left to send equal, in this order, to the bytes written. |
| SmuxBytes.BytesArriveInOrder | pkg/smux/stream.go:389-485 | In every interleaving the bytes read are a prefix of the bytes written, and all of them once nothing is left on the way. |
| SmuxBytes.ReadTakes | pkg/smux/stream.go:151-175 | A read with buffered bytes returns as many of the first buffer as it has room for, and leaves the rest in order. |
| SmuxStream.Stream.PushBytes | pkg/smux/stream.go:571-577 | The buffered bytes grow by the frame, at the end. |
| SmuxStream.Stream.CopyOut | pkg/smux/stream.go:122-135 | The copy takes the smaller of the destination's and the first buffer's length, and nothing only if nothing is buffered; what was buffered is what was copied followed by what is left; the rest of the destination is untouched. |
| SmuxStream.Stream.TryRead | pkg/smux/stream.go:113-205 | For both versions: a read takes the smaller of its room and the first buffer, in order and once, the tokens equal the bytes taken, EOF or would-block exactly when nothing is buffered, and the announcement is the state machine's. |
| SmuxStream.Stream.TakeBuffer | pkg/smux/stream.go:213-287 | WriteTo takes one whole buffer from the front and accounts for it like a read. |
| SmuxStream.Stream.WriteRound | pkg/smux/stream.go:416-468 | A round sends the prefix of the data that the window admits, cut into full frames and a last one, and advances the wrapped counter by it; a negative inflight is an error that sends nothing. |
| SmuxStream.Stream.SendFrames | pkg/smux/stream.go:445-462 | The frames put together are the bytes to send, all full but the last, which has at least a byte. |
| SmuxStream.Stream.RecycleTokens | pkg/smux/stream.go:580-590 | The tokens recycled are the bytes dropped. |
| SmuxStream.Stream.Update | pkg/smux/stream.go:601-608 | A window update makes the three steps by which the state machine takes an update off the wire. |
| SmuxTokens.RegisterAdds | pkg/smux/session.go:161-208 | Registering an id drawn from one's own sequence never replaces a stream of the map. |
| SmuxTokens.AllocGivesNext | pkg/smux/session.go:161-180 | A new id is the next of this side's parity exactly while 32 bits hold it; after that no stream is ever opened again. |
| SmuxTokens.StepConserves | pkg/smux/session.go:351-428 | Every step keeps bucket + unread + taken = MaxReceiveBuffer, counting a frame pushed and not yet charged. |
| SmuxTokens.BucketIsExact | pkg/smux/session.go:373-428 | Wherever recvLoop looks at it the int32 bucket has not wrapped. |
| SmuxTokens.StepKeepsInv | pkg/smux/session.go:373-454 | Every step keeps conservation, the lock discipline, unique ids and the wake-up condition. |
| SmuxTokens.ReachableInv | pkg/smux/session.go:145-149 | The invariant holds in every reachable state, for any number of goroutines. |
| SmuxTokens.TokensAreConserved | pkg/smux/session.go:351-370 | Bucket, unread bytes and bytes in hand add up to MaxReceiveBuffer in every reachable state; an open session never buffers more than MaxReceiveBuffer + 65534 bytes. |
| SmuxTokens.RecvLoopHasNoLostWakeup | pkg/smux/session.go:275-280 | recvLoop never sleeps on a positive bucket without a signal queued or a goroutine about to send one. |
| SmuxTokens.StreamIdsAreUnique | pkg/smux/session.go:173-208 | At most one registered stream per id, and an id being opened is not registered. |
| SmuxShaper.WrappedOrderIff | pkg/smux/shaper.go:27-45 | For requests less than 2^32 numbers apart the wrapping comparison is right in both directions exactly when they are less than 2^31 apart. |
| SmuxShaper.LessIsBefore | pkg/smux/shaper.go:40-45 | On requests that span less than 2^31 numbers the comparison is the unbounded order by class and number. |
| SmuxShaper.RootIsLeast | pkg/smux/shaper.go:31-56 | The root of the heap comes before everything in it. |
| SmuxShaper.ShaperHeap.Push | pkg/smux/shaper.go:47-48 | Pushing keeps the heap order and adds exactly the request. |
| SmuxShaper.ShaperHeap.Pop | pkg/smux/shaper.go:50-56 | Popping keeps the heap order and removes exactly the root. |
| SmuxShaper.InsertSorts | pkg/smux/session.go:484-522 | The reference queue stays ordered under offers. |
| SmuxShaper.PlayConserves | pkg/smux/session.go:484-522 | Over any run what was sent and what waits is what was offered, and at most 1025 requests wait. |
| SmuxShaper.PlaySendsLeast | pkg/smux/session.go:484-522 | Whatever is sent is of a lower class than everything that still waits, or of the same class and earlier. |
| SmuxShaper.Turn | pkg/smux/session.go:484-522 | One turn of the loop on the heap does what the step does on the ordered queue. |
| SmuxShaper.ShaperLoop | pkg/smux/session.go:484-522 | For any events the heap sends exactly the sequence the ordered queue sends, loses nothing, holds at most 1025 requests, and the panic branch is not reached. |
| Rotation.RebuildEntries | rule/group.go:310-330 | A rebuilt rotation has no repetition and nothing below the active priority; on one snapshot it has a single priority, and is empty only if nothing is enabled. |
| Rotation.RebuildIsInOrder | rule/group.go:310-330 | A rebuilt rotation is in the order of the group; on one snapshot it begins with the first enabled forwarder and is empty only if there is none. |
| Rotation.OnePriorityIff | rule/group.go:310-330 | A rebuilt rotation has a single priority exactly when the second scan reads nothing above the first scan's choice as enabled. |
| Rotation.TornScanMixes | rule/group.go:310-330 | Two scans that differ can leave two priorities in the rotation. |
| Rotation.RebuildIsConsistent | rule/group.go:310-330 | A rebuild that does not strand the group is right for every forwarder without a pending handler. |
| Rotation.SwapRemoved | rule/group.go:343-378 | Removing by moving the last entry takes out that forwarder only. |
| Rotation.HandlerPlaces | rule/group.go:343-378 | Where a handler puts entries: a new one of the active priority last, the last one into the place of a removed one, a rebuilt rotation in order, and otherwise nothing moves. |
| Rotation.FirstIsHighest | rule/group.go:310-330 | A right rotation in order begins with the first enabled forwarder, which has the highest priority of all enabled ones. |
| Rotation.HandleKeepsConsistent | rule/group.go:343-378 | A handler that does not read what strands the group leaves it right for every forwarder with no other handler due. |
| Rotation.HandleEmptyIff | rule/group.go:343-378 | A handler leaves the rotation empty exactly if its own read and its first scans bring it to an empty rotation and its last second scan reads nothing of the priority its first scan settled on. |
| Rotation.HandleConsistentIff | rule/group.go:343-378 | A handler keeps the invariant exactly when it does not read that while a forwarder is enabled for which no other handler is due. |
| Rotation.HandleKeepsOnePriority | rule/group.go:343-378 | A handler that works on one snapshot keeps a single priority and strands nothing. |
| Rotation.FlipKeepsConsistent | rule/forward.go:166-182 | A flip of a flag, with its handler now pending, keeps the invariant. |
| Rotation.NeverRepeats | rule/group.go:332-378 | Over every run no forwarder is twice in the rotation, whatever the handlers read. |
| Rotation.RunOwes | rule/group.go:310-378 | Over every run, what flips and reads say is owed is exactly what the rotation misses: those forwarders are enabled, have no handler due and are left out; all others are right. |
| Rotation.RotationIsRightAtQuiescence | rule/group.go:310-378 | After any interleaving the rotation has no repetition, and once no handler is pending it is exactly the enabled forwarders of the highest enabled priority if and only if the run owes nothing; a run without a stranding handler owes nothing. |
| Rotation.AtomicHandlersAreRight | rule/group.go:310-378 | With handlers that see one snapshot each, every run keeps a single priority and is right at quiescence. |
| Rotation.TornScansCanStrand | rule/group.go:310-378 | A run, in which no forwarder is enabled twice before its handler ran, after which no handler is pending and the rotation is wrong. |
| ForwarderGroup.Forwarder.Enable | rule/forward.go:166-173 | Enabling clears the failures and reports a change exactly when the forwarder was disabled. |
| ForwarderGroup.Forwarder.Disable | rule/forward.go:176-182 | Disabling reports a change exactly when the forwarder was enabled. |
| ForwarderGroup.Forwarder.IncFailures | rule/forward.go:146-158 | One failure more, and disabled on reaching exactly a non-zero maximum. |
| ForwarderGroup.RotatedIsDistinct | rule/group.go:266-301 | The pool rotated from any position has no repetition. |
| ForwarderGroup.RoundRobinVisitsAllIff | rule/group.go:554-556 | As many round-robin picks in a row as the pool has members are all different exactly when the 32-bit counter does not wrap among them or the size of the pool divides 2^32. |
| ForwarderGroup.RoundRobinRepeats | rule/group.go:554-556 | With three forwarders and the counter just before its wrap, two picks in a row are the same. |
| ForwarderGroup.FwdrGroup.NextDialers | rule/group.go:241-247 | Calls of nextDialer in a row, round robin or with an empty rotation, return exactly these picks and move the counter by their number modulo 2^32. |
| ForwarderGroup.ChargedMore | rule/forward.go:132-138 | Charging a forwarder not charged before changes its counter only. |
| ForwarderGroup.RetriesKeepBudget | rule/group.go:185-220 | With retries the time spent is below the budget plus what the last attempt cost more than the one before; with costs that do not increase it is below the budget. |
| ForwarderGroup.FwdrGroup.constructor | rule/group.go:95-139 | A new group holds the same forwarders ordered by priority, clamps attempts and budget, and its rotation is right and in order. |
| ForwarderGroup.FwdrGroup.Init | rule/group.go:310-330 | The two loops of init() compute the rebuild on the present flags, which is in the order of the group (`RebuildIsInOrder`). |
| ForwarderGroup.FwdrGroup.SetTopPriority | rule/group.go:311-316 | The first loop takes the priority of the first enabled forwarder, if there is one. |
| ForwarderGroup.FwdrGroup.CollectAvail | rule/group.go:318-323 | The second loop collects exactly the enabled forwarders of at least that priority, from the first to the last (`UpFromAscends`). |
| ForwarderGroup.FwdrGroup.InAvail | rule/group.go:333-340 | True exactly for members of the rotation. |
| ForwarderGroup.FwdrGroup.OnStatusChanged | rule/group.go:343-378 | The handler does to the group what the state machine's handler does on one snapshot. |
| ForwarderGroup.FwdrGroup.NextDialer | rule/group.go:241-247 | The pick is the strategy's, from the rotation, or from all forwarders when it is empty. |
| ForwarderGroup.FwdrGroup.FirstEnabledIsPick | rule/group.go:559-561 | High availability in a new or rebuilt group: the pick is the first enabled forwarder, of the highest priority enabled. |
| ForwarderGroup.FnvTestValues | rule/group.go:581-585 | The hash gives the published values of FNV-1a. |
| ForwarderGroup.FwdrGroup.LowestLatency | rule/group.go:564-578 | The pick is the first forwarder unless the lowest latency beats it by more than the tolerance, and then the first that has the lowest. |
| ForwarderGroup.FwdrGroup.DialCandidates | rule/group.go:266-301 | The candidates are the pool rotated from the pick, without repetition, min(n, pool size) of them. |
| ForwarderGroup.FwdrGroup.Charge | rule/forward.go:132-158 | A failure charges its own forwarder once, disables it exactly on reaching its maximum, and keeps the rotation's invariant. |
| ForwarderGroup.FwdrGroup.Dial | rule/group.go:185-220 | Candidates are tried in order, the first always, a retry only inside the budget; each failed one is charged exactly once and disabled exactly on reaching its maximum, nothing else is. |
| ForwarderGroup.HandledOnce | rule/group.go:343-378 | On stable flags the handler of a change settles it. |
| ForwarderGroup.RotateFrom | rule/group.go:266-301 | The loop yields the first m entries around the circle from the pick. |
| CacheSpec.RecencyIsDistinct | dns/cache.go:105-119 | The recency order lists every touched key once. |
| CacheSpec.InFrontAreLater | dns/cache.go:105-119 | In front of a key stand exactly the keys touched after it. |
| CacheSpec.TouchTracks | dns/cache.go:67-127 | A touch moves the list along with the recency order, cut to the capacity. |
| CacheSpec.PlayTracks | dns/cache.go:44-127 | After any operations the list is the front of the recency order. |
| CacheSpec.PresentIffRecent | dns/cache.go:28-127 | A key is in the cache exactly when it was touched and fewer than max(size, 2) other keys were touched since. |
| CacheSpec.UsedComesFirst | dns/cache.go:44-119 | After any operations: a key set with a time to live comes first, and so does one that a lookup finds in the list, the others keeping their order; no other operation changes the list. |
| CacheSpec.PlayStores | dns/cache.go:67-75 | Entries without a lifetime hold the latest such value. |
| CacheSpec.AnswerIsLatest | dns/cache.go:44-60 | A lookup returns the latest value set, a permanent entry first and never expired, an entry of the list with its expiry, and nothing otherwise. |
| DnsCache.LruCache.constructor | dns/cache.go:28-41 | A new cache is linked, indexed, and stands for the initial model. |
| DnsCache.LruCache.Get | dns/cache.go:44-60 | A lookup answers as the model does, moves the list as the model does, and keeps links and map consistent. |
| DnsCache.LruCache.Set | dns/cache.go:67-91 | Setting does what the model does, with links and map consistent. |
| DnsCache.LruCache.PutToHead | dns/cache.go:94-102 | A new item becomes the head and is indexed. |
| DnsCache.LruCache.MoveToHead | dns/cache.go:105-119 | The item moves to the front; the others keep their order and links. |
| DnsCache.LruCache.RemoveTail | dns/cache.go:122-127 | The last item leaves list and map. |
| Crc32.ShiftsLinear | proxy/ssr/internal/ssr/crc32.go:13-25 | Shifting the register is linear over exclusive or. |
| Crc32.CreateTable | proxy/ssr/internal/ssr/crc32.go:13-25 | Entry b of the table is b shifted out bit by bit through the polynomial 0xEDB88320. |
| Crc32.FeedByteIsShifts | proxy/ssr/internal/ssr/crc32.go:32-38 | Feeding eight bits one by one is putting the byte into the register and shifting eight times. |
| Crc32.TableStepIsFeed | proxy/ssr/internal/ssr/crc32.go:32-38 | One table step is feeding the byte bit by bit. |
| Crc32.DoCalc | proxy/ssr/internal/ssr/crc32.go:32-38 | The table loop computes the bitwise division over the given range. |
| Crc32.Calc | proxy/ssr/internal/ssr/crc32.go:27-30 | The result is the bitwise CRC of the first length bytes. |
| Crc32.CheckValue | proxy/ssr/internal/ssr/crc32.go:27-30 | The CRC of the digits 1 to 9 is the published check value. |
| Crc32.Set | proxy/ssr/internal/ssr/crc32.go:40-47 | Only the last four bytes change, to the register over those before them. |
| Crc32.Check | proxy/ssr/internal/ssr/crc32.go:49-52 | The check accepts exactly when the register over the buffer ends at zero. |
| Crc32.FeedWord | proxy/ssr/internal/ssr/crc32.go:32-38 | Four bytes fed are their word put into the register and shifted out. |
| Crc32.CheckAcceptsExactly | proxy/ssr/internal/ssr/crc32.go:40-52 | The check accepts exactly the buffers that end in what SetCRC32 would write. |
| Crc32.SetThenCheck | proxy/ssr/internal/ssr/crc32.go:40-52 | After SetCRC32 the check succeeds, for every buffer of at least four bytes. |
| Adler32.ChunkIsLongest | proxy/ssr/internal/ssr/adler32.go:15-25 | 5552 is the longest chunk for which no input overflows 32 bits. |
| Adler32.PeakIsReached | proxy/ssr/internal/ssr/adler32.go:5-13 | The bound on the unreduced sum is met by a chunk of 0xFF bytes. |
| Adler32.RawReduces | proxy/ssr/internal/ssr/adler32.go:5-13 | Reducing once at the end equals reducing after every byte. |
| Adler32.CalcShort | proxy/ssr/internal/ssr/adler32.go:5-13 | With 32-bit additions a chunk gives the sums reduced at every byte. |
| Adler32.Calc | proxy/ssr/internal/ssr/adler32.go:15-25 | For any length the result is Adler-32 as section 2.2 of RFC 1950 defines it. |
| Adler32.CheckValue | proxy/ssr/internal/ssr/adler32.go:15-25 | The Adler-32 of "abc" is the known one. |
| Adler32.Check | proxy/ssr/internal/ssr/adler32.go:27-31 | Accepts exactly when the last four bytes are the checksum of those before. |
| AuthSha1V4.LookPacket | proxy/ssr/internal/protocol/auth_sha1_v4.go:183-223 | A packet at the front of a buffer passes every check and gives its data and length, whatever follows. |
| AuthSha1V4.ParsePacket | proxy/ssr/internal/protocol/auth_sha1_v4.go:183-223 | Parsing a packet and more gives its data and goes on behind it. |
| AuthSha1V4.ParsePartial | proxy/ssr/internal/protocol/auth_sha1_v4.go:183-223 | A proper prefix of a packet gives no data, no error, and is left in place. |
| AuthSha1V4.ParsePrefix | proxy/ssr/internal/protocol/auth_sha1_v4.go:183-223 | A prefix of a packet stream gives the data of exactly the packets complete in it. |
| AuthSha1V4.ReceivePrefix | proxy/ssr/internal/client.go:153-180 | With the unconsumed tail carried over, any fragments of a prefix deliver exactly the complete packets and keep less than one. |
| AuthSha1V4.StreamingRoundTrip | proxy/ssr/internal/client.go:153-180 | Any blocks of 1 to 4096 bytes, with any padding, cut into any fragments: no error, exactly the data, nothing left over. |
| AuthSha1V4.AuthSha1V4.PackData | proxy/ssr/internal/protocol/auth_sha1_v4.go:51-86 | The array built field by field is, byte by byte, the packet of the data for the padding drawn: length high byte first, low half of its CRC low byte first, padding with its own length, data, Adler-32 low byte first. |
| AuthSha1V4.AuthSha1V4.BuildPacket | proxy/ssr/internal/protocol/auth_sha1_v4.go:64-86 | The same for a given padding. |
| AuthSha1V4.AuthSha1V4.PostDecrypt | proxy/ssr/internal/protocol/auth_sha1_v4.go:183-223 | The loop computes the parse: data, bytes consumed, and the first error, which comes exactly when after packets without fault there is one with that fault. |
| AuthSha1V4.LookMeans | proxy/ssr/internal/protocol/auth_sha1_v4.go:183-223 | What the front of a buffer is, stated on its bytes: each fault, and a packet with its data, exactly when the bytes say so. |
| AuthSha1V4.FailsIff | proxy/ssr/internal/protocol/auth_sha1_v4.go:183-223 | Parsing fails with an error exactly when, after packets without fault, it comes to one with that fault. |
| AuthSha1V4.PackIsPacket | proxy/ssr/internal/protocol/auth_sha1_v4.go:51-86 | Every packet has the layout of the protocol, stated on its bytes. |
| AuthSha1V4.PanicsIff | proxy/ssr/internal/protocol/auth_sha1_v4.go:183-223 | PostDecrypt panics exactly when, after packets without fault, it comes to one with the right checksums whose padding is said to be longer than it has room for. |
| AuthSha1V4.LongPadding | proxy/ssr/internal/protocol/auth_sha1_v4.go:183-223 | A packet of nine bytes that claims six of padding makes it panic. |
| AuthSha1V4.AuthSha1V4.PreEncrypt | proxy/ssr/internal/protocol/auth_sha1_v4.go:156-181 | The first bytes of a connection, as many as the address takes, go into the header packet; the rest of the input, then and later, is the data of a packet stream in blocks of 4096 bytes and a last one. |
| AuthSha1V4.AuthSha1V4.PreEncryptAll | proxy/ssr/internal/protocol/auth_sha1_v4.go:156-223 | The outputs of successive calls on a new connection are the header packet of the first bytes and then, cut into any fragments, are received as exactly the rest of the inputs. |
| AuthSha1V4.HeadIsAddress | proxy/ssr/internal/ssr/obfs.go:37-55 | An IPv4, IPv6 or domain address with its port, in front of anything, is exactly what goes into the header packet; without one it is 30 bytes. |
| ShadowAead.IncrementAddsOne | proxy/ss/cipher/shadowaead/stream.go:143-150 | Incrementing adds one modulo 256^size to the little-endian number. |
| ShadowAead.Carry | proxy/ss/cipher/shadowaead/stream.go:143-150 | The carry clears the leading 255 bytes and stops at the next one. |
| ShadowAead.IncrementInPlace | proxy/ss/cipher/shadowaead/stream.go:143-150 | The loop increments the array in place. |
| ShadowAead.NonceCounts | proxy/ss/cipher/shadowaead/stream.go:143-150 | The nonce of the k-th seal is the number k modulo 256^size. |
| ShadowAead.NoncesDiffer | proxy/ss/cipher/shadowaead/stream.go:143-150 | Nonces less than 256^size apart in the count are different. |
| ShadowAead.SealsDiffer | proxy/ss/cipher/shadowaead/stream.go:38-61 | Any two seals that writes make, less than 256^size apart, are made with different nonces. |
| ShadowAead.ChunkFitsIff | proxy/ss/cipher/shadowaead/stream.go:16-61 | No write panics on its buffer, of capacity 32768, exactly up to an overhead of 8191 bytes. |
| ShadowAead.BufCapIs | proxy/ss/cipher/shadowaead/stream.go:16-22 | The buffer of 17 KiB asked for has capacity 32768. |
| ShadowAead.ReadPanicsIff | proxy/ss/cipher/shadowaead/stream.go:79-140 | A read panics exactly when it has nothing left over and the capacity it reads into, of the destination or of the pooled buffer, does not hold a sealed length, or does not hold what the length it opens announces. |
| ShadowAead.LongChunkPanics | proxy/ss/cipher/shadowaead/stream.go:79-140 | With any cipher, a sealed length beyond the capacity makes the read panic. |
| ShadowAead.SplitIsComplete | proxy/ss/cipher/shadowaead/stream.go:38-61 | The chunks of a write put together are the write, each of 1 to 16383 bytes. |
| ShadowAead.TakeSealed | proxy/ss/cipher/shadowaead/stream.go:79-113 | A sealed chunk is opened with the nonces it was sealed with and leaves what follows. |
| ShadowAead.ReadServes | proxy/ss/cipher/shadowaead/stream.go:115-140 | A read returns as many of the next bytes of the chunk as it has room for; what it returns and what is still to come is what was to come, and reader and writer nonces agree at the chunk boundary. |
| ShadowAead.StreamRoundTrip | proxy/ss/cipher/shadowaead/stream.go:38-140 | For any writes and any destinations the reads return the bytes written in order, and all of them given enough reads with room. |
| ShadowAead.WireOfWrites | proxy/ss/cipher/shadowaead/stream.go:38-61 | Successive writes put out one stream of chunks with nonces counting on. |
| ShadowAead.Writer.Write | proxy/ss/cipher/shadowaead/stream.go:38-61 | The output is the seals, under nonces counting on one by one, of the length and the bytes of every 16383 bytes of the data in turn; it panics exactly when the first chunk exceeds the capacity of the buffer, and then nothing is put out. |
| ShadowAead.StreamReader.ReadChunk | proxy/ss/cipher/shadowaead/stream.go:79-113 | Takes one chunk from the connection into a buffer of any capacity as the model does, errors and panics included: it gives c exactly when a length opens with the nonce due and that many bytes open to c with the next one. |
| ShadowAead.StreamReader.ReadInto | proxy/ss/cipher/shadowaead/stream.go:115-140 | Serves a read of any size and spare capacity from the leftover, straight from the next chunk, or through the pooled buffer, as the model does. |
| BufferPool.CapIsLeast | pkg/pool/buffer.go:11-41 | A pooled buffer has the capacity of the least power of two that holds it, and there is a pool for it. |
| WsFrame.XorTwice | proxy/ws/frame.go:95-98 | Exclusive or with the same byte twice gives the byte back. |
| WsFrame.XorIs | proxy/ws/frame.go:95-98 | The result has a one, in base two, exactly where the bytes differ. |
| WsFrame.MaskCut | proxy/ws/frame.go:164-169 | The mask stays aligned when a payload is cut anywhere. |
| WsFrame.TakeLengthField | proxy/ws/frame.go:122-143 | A length written in its short, 16-bit or 64-bit form is read back, masked or not. |
| WsFrame.EnterFrame | proxy/ws/frame.go:121-152 | Reading a header puts the reader at the payload of that frame with its key. |
| WsFrame.EnterTakesKey | proxy/ws/frame.go:145-151 | A server takes the key of each frame from its header and begins with its first byte. |
| WsFrame.ReadServes | proxy/ws/frame.go:121-173 | A read returns the next bytes; what it returns and what is still to come is what was to come. |
| WsFrame.FramingRoundTrip | proxy/ws/frame.go:62-173 | For any writes, empty ones and all lengths included, and any read sizes, the reader of the other role recovers the byte stream. |
| WsFrame.PanicsIff | proxy/ws/frame.go:121-162 | A read panics exactly when it takes a header whose 64-bit length has its top bit set, with the key behind it at the server. |
| WsFrame.NegativeLength | proxy/ws/frame.go:137-162 | Ten header bytes with such a length make a client's read panic, whatever follows and whatever its size. |
| WsFrame.FrameWriter.Write | proxy/ws/frame.go:62-105 | A write puts out one frame, stated on its bytes: final bit and opcode, mask bit exactly at the client, length in one of three forms, key, payload masked with it. |
| WsFrame.FrameReader.EnterNext | proxy/ws/frame.go:121-152 | Reads the next header as the model does, errors included. |
| WsFrame.FrameReader.ReadInto | proxy/ws/frame.go:121-173 | Reads into the destination as the model does and unmasks in place. |
| DnsName.SplitJoins | dns/message.go:444-467 | A name split at its dots and joined again is the name. |
| DnsName.SplitDotted | dns/message.go:444-467 | Labels without full stops, joined by them, are taken apart into the same labels. |
| DnsName.LabelsReadDotted | dns/message.go:509-512 | Labels read one after the other give the name with full stops between them. |
| DnsName.MarshalDomainTo | dns/message.go:444-467 | The loop writes the labels with their length bytes and the zero byte, and counts them. |
| DnsName.UnmarshalDomainTo | dns/message.go:470-527 | Wherever the loop returns, it returns what the reference reader does: name, end and every error. |
| DnsName.OffsetIs | dns/message.go:484-485 | A pointer leads to the low 14 bits of its two bytes, high byte first. |
| DnsName.MoreHops | dns/message.go:470-527 | A name that is read within some number of pointers is read the same with any more. |
| DnsName.OutOfHopsIff | dns/message.go:470-527 | The reader needs more than h pointers exactly when the chain of pointers has an h+1st. |
| DnsName.EndlessIff | dns/message.go:470-527 | Reading never returns exactly when the pointers lead back to a place they came from; otherwise as many pointers as the message has bytes are enough. |
| DnsName.SpelledIsRead | dns/message.go:470-527 | A name behind any chain of backward pointers is read as the labels it stands for. |
| DnsName.EncodedIsRead | dns/message.go:470-518 | Written labels are read back at their place, whatever surrounds them. |
| DnsName.NameIsRead | dns/message.go:444-518 | A name with labels of 1 to 63 bytes is read back whole. |
| DnsName.NameIsReadIff | dns/message.go:444-518 | A written name is read back whole exactly when its labels have 1 to 63 bytes. |
| DnsName.RootIsMisread | dns/message.go:444-518 | The root name is written as two zero bytes and read as the first of them, wherever it stands. |
| DnsMessage.MarshalTo | dns/message.go:101-127 | The header goes out with its counts set, then the question and every answer in order. |
| DnsMessage.MarshalRR | dns/message.go:365-398 | A record's name, fields and data in order. |
| DnsMessage.UnmarshalQuestion | dns/message.go:297-318 | Decodes the question, with its errors and its reads of the buffer behind the message. |
| DnsMessage.UnmarshalRR | dns/message.go:401-441 | Decodes a record, with its errors; name, type, class, time to live, length, data and the address of A and AAAA records are the bytes where they stand, the address possibly from the buffer behind the message. |
| DnsMessage.RecordMeans | dns/message.go:401-441 | Whatever record is decoded, its fields, data and address are the bytes behind its name, in order. |
| DnsMessage.FrontMeans | dns/message.go:224-242 | The header is its six fields in order, and type and class stand behind the question's name. |
| DnsMessage.UnmarshalAnswers | dns/message.go:147-158 | The loop decodes the given number of records one behind the other, or stops at the first failure. |
| DnsMessage.UnmarshalMessage | dns/message.go:130-163 | Decodes a message in a buffer of any capacity as the reference decoder does, panics included; what that gives is stated on the bytes by `FrontMeans` and `RecordMeans`. |
| DnsMessage.HeaderRoundTrip | dns/message.go:220-242 | A header is read back as written. |
| DnsMessage.QuestionRoundTrip | dns/message.go:277-318 | A question is read back as written, in front of anything, in any buffer. |
| DnsMessage.RRRoundTrip | dns/message.go:365-441 | A record is read back as written, between anything, with the first 4 or 16 bytes of its data as its address if it is of type A or AAAA. |
| DnsMessage.MessageRoundTrip | dns/message.go:101-163 | Unmarshalling what was marshalled gives the header with its counts, the question and the answers, each with the first 4 or 16 bytes of its data as address if it is of type A or AAAA, in any buffer. |
| DnsMessage.LoopingQuestion | dns/message.go:297-318 | A question whose name is a pointer to itself is never decoded. |
| DnsMessage.CutQuestion | dns/message.go:130-163 | A message with one answer that stops behind the name of its question makes the decoder panic, whatever the capacity. |
| DnsMessage.CutRecord | dns/message.go:401-441 | A message whose A record has one byte makes it panic exactly when the buffer has less than the three bytes missing. |
| DnsMessage.RecordPanicsIff | dns/message.go:401-441 | Decoding a record panics exactly when it begins behind the message, or is an A or AAAA record whose fields and data are there and the buffer ends before an address would. |
| DnsMessage.PanicsIff | dns/message.go:130-163 | Decoding a message panics exactly when it ends inside the type and class of the question and so does its buffer or there are answers to come, or when its buffer ends inside the address of such a record reached by decoding those before it. |
| DnsMessage.UdpPanicsIff | dns/server.go:62-71 | In the buffers used for UDP it panics exactly when the message ends inside its question and claims answers. |
| DhcpPool.AddressRoundTrip | service/dhcpd/pool.go:133-142 | An IPv4 address and its number determine each other. |
| DhcpPool.AddressesInOrder | service/dhcpd/pool.go:133-142 | Numbers are in the order of the addresses, the first byte counting most. |
| DhcpPool.LeaseMeans | service/dhcpd/pool.go:62-104 | A lease goes to the entry the MAC holds or else to a free one, changes that entry only, leaves static bindings alone, and fails exactly when the MAC holds nothing and nothing is free, wherever the search starts. |
| DhcpPool.LeaseKeepsAddress | service/dhcpd/pool.go:62-104 | A holder gets its own address back, and a new client the free address it asks for. |
| DhcpPool.SearchFindsFirst | service/dhcpd/pool.go:86-101 | A new client whose wish is not free gets the first free address from the random place on, else the first of all. |
| DhcpPool.LeaseIsUndone | service/dhcpd/pool.go:45-131 | Releasing the lease of a MAC that held nothing gives back the pool as it was, and once the lease has run out the expiry leaves no trace of it. |
| DhcpPool.BindKeepsInv | service/dhcpd/pool.go:107-117 | A static binding of a new MAC keeps one address per MAC. |
| DhcpPool.ApplyKeepsInv | service/dhcpd/pool.go:62-131 | Lease, release and expiry keep one address per MAC and every static binding. |
| DhcpPool.ServingIsSafe | service/dhcpd/pool.go:29-131 | Over every run at most one address per MAC, the same addresses, and unchanged static bindings. |
| DhcpPool.HolderKeepsAddress | service/dhcpd/pool.go:62-131 | Until it releases or its lease runs out a holder keeps its address over every run. |
| DhcpPool.BindAllKeepsInv | service/dhcpd/pool.go:107-117 | Any static bindings of distinct MACs made before serving give a pool that is safe to serve. |
| DhcpPool.PoolIsSafe | service/dhcpd/pool.go:29-131 | From NewPool on, with any static bindings of distinct MACs made first: after every run the pool has the addresses of its range, no MAC has two of them, and each address belongs for ever to the MAC it was last bound to. |
| DhcpPool.RangeEndsIff | service/dhcpd/pool.go:40-43 | The 32-bit counter of the loop over the range passes its end exactly when that is not 255.255.255.255. |
| DhcpPool.DhcpPool.LeaseIP | service/dhcpd/pool.go:62-104 | The loops find the entry the lease function chooses and update it only. |
| DhcpPool.DhcpPool.LeaseStaticIP | service/dhcpd/pool.go:107-117 | Binds the MAC, without expiry, to the entries with that address and to no other. |
| DhcpPool.DhcpPool.ReleaseIP | service/dhcpd/pool.go:120-131 | Frees exactly the dynamic entries of the MAC. |
| DhcpPool.DhcpPool.ExpireTick | service/dhcpd/pool.go:45-56 | Frees every entry whose lease has run out. |
| DhcpPool.NewPool | service/dhcpd/pool.go:29-59 | Refuses other than IPv4, unspecified addresses and an empty range; does not return exactly when its 32-bit counter never passes the end of the range; otherwise every address of the range is there and free. |
| AnyTlsPool.StepKeepsExclusive | proxy/anytls/session/client.go:54-216 | Every atomic step keeps each session with one goroutine or once on the idle list. |
| AnyTlsPool.StepKeepsFlags | proxy/anytls/session/client.go:102-126 | A session that is owned and not about to be appended is never marked as idle. |
| AnyTlsPool.StepLeaksNothing | proxy/anytls/session/client.go:54-216 | No step forgets a live session. |
| AnyTlsPool.SessionsAreExclusive | proxy/anytls/session/client.go:54-216 | Over every interleaving no session has two owners, is twice on the idle list, or is there while owned. |
| AnyTlsPool.LiveSessionsAreKept | proxy/anytls/session/client.go:54-216 | A session that was never closed is always owned or idle. |
| AnyTlsPool.ReturnAlwaysSucceeds | proxy/anytls/session/client.go:102-110 | The compare-and-swap of a returning session never fails, so it always gets back on the list. |
| AnyTlsPool.ClosedIsDiscarded | proxy/anytls/session/client.go:112-126 | A popped session is handed out exactly if it is open when looked at; a closed one is dropped for good. |
| AnyTlsPool.StaleIff | proxy/anytls/session/client.go:85-110 | A session whose hook is done gets on the list exactly by the append of a stream that found it open before. |
| AnyTlsPool.DeadCanStayIdle | proxy/anytls/session/client.go:136-151 | That race happens: a run from the start that ends with a dead session on the list. |
| AnyTlsClient.StayingMeans | proxy/anytls/session/client.go:192-216 | The list kept by a cleanup leaves out no open and unexpired session, and the list to close no expired one. |
| AnyTlsClient.Client.CreateSession | proxy/anytls/session/client.go:128-159 | A new session is in the table, and the pool makes the state machine's creation step. |
| AnyTlsClient.Client.GetIdleSession | proxy/anytls/session/client.go:112-126 | The newest open session of the list, all newer ones being closed and dropped, with their marks cleared and nothing else changed; a run of pops and checks of the state machine. |
| AnyTlsClient.Client.ReturnToIdle | proxy/anytls/session/client.go:102-110 | The effect on list and marks is the run of the compare-and-swap and, if it succeeds, the append. |
| AnyTlsClient.Client.RemoveIdle | proxy/anytls/session/client.go:139-146 | Takes out the first occurrence only, keeping the order. |
| AnyTlsClient.Client.CloseSession | proxy/anytls/session/session.go:80-100 | Closes once; the hook clears the mark and takes the session off list and table: the run of death and the two steps of the hook. |
| AnyTlsClient.Client.Sweep | proxy/anytls/session/client.go:196-211 | Keeps the open unexpired sessions in order, returns the expired ones, and clears the marks of all others; a run of sweep steps that leaves the goroutine with the expired ones. |
| AnyTlsClient.Client.IdleCleanup | proxy/anytls/session/client.go:192-216 | Afterwards the list is the open unexpired sessions and every other one of it is closed; the expired ones are off the table; the whole round is a run of the state machine. |
| AnyTlsShutdown.StepKeepsInv | proxy/anytls/session/client.go:54-177 | With the table, the cancelled context and racing calls of Close and CreateStream: every step keeps each live session in the table, about to be, or taken by Close, and after Close emptied the table to be closed or held by a goroutine. |
| AnyTlsShutdown.SurvivorsAreHeld | proxy/anytls/session/client.go:81-177 | In every run, when Close has closed what it took, a session still alive has a goroutine that opens a stream on it, uses one, or is about to close it. |
| AnyTlsShutdown.CloseIsCompleteIff | proxy/anytls/session/client.go:54-177 | However the run goes on, all sessions are closed once Close is done exactly when, as it empties the table, no call of CreateStream is between its look at the context and the table. |
| AnyTlsShutdown.StreamOutlivesClose | proxy/anytls/session/client.go:54-177 | A run in which a stream is opened on a new session after Close is done. |

## Left out

- Sockets, TLS, HTTP, configuration, logging and health-check transports: plumbing around the parts modelled here.
- Ciphers, MACs and key derivation: `ShadowAead` takes any cipher whose open undoes its seal under the same nonce.
- Random choices (paddings, mask keys, the start of a lease search) and clocks are parameters, and hold for all values.
- Deadlines, keepalive timers and write errors of smux and anytls: they end a run and touch no invariant.
- The contents of frames in `SmuxTokens`: the bucket counts lengths only.
- smux peers that open stream ids of the other parity: `SmuxTokens` lets each side use its own sequence only.
- packAuthData, which makes the first packet of auth_sha1_v4 with its HMAC: any function of the bytes it packs.
- Authority and additional sections of DNS messages: the source neither writes nor reads them.
- `sort.Sort` and `container/heap` are not part of the repository: the order they produce is computed by an insertion sort, and the sift loops are written out.
- Forwarders of a group are named by their position in the sorted list; latencies are unbounded integers.
- In-place compaction of the idle list over its own backing array: the list is a sequence that is reassigned.
- AuthSha1V4.StreamingRoundTrip: blocks have at least one byte, because PreEncrypt never packs an empty one once the header is out.
- VMess, kcp, ssh, SOCKS, trojan, redirection and the rule matcher: left out, they would repeat these arguments or add easy members.
