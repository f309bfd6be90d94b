# LTFP transport library: a verified model

This project models the state machines, codecs and arithmetic of the LTFP transport library (`ltfp/`) and of its
Base62 identifiers (`agent-core/pkg/tsbase62/`), and proves what they are for. `dafny verify dfyconfig.toml` checks it.

| file | models |
|---|---|
| `ControlFragmentation.dfy` | fragment headers, the fragmenter, the reassembler with its in-flight cap and TTL |
| `ReassemblySafety.dfy` | what the reassembler guarantees for arbitrary input |
| `ReassemblyRoundTrip.dfy` | round trip for any interleaving of the fragments of many frames |
| `QuicControl.dfy` | the QUIC control wire around them: frame headers, the write path, the read loop, deadlines |
| `EndToEnd.dfy` | two QUIC control channels with a stream between them |
| `GrpcTunnel.dfy`, `TrafficProtocol.dfy`, `TrafficStream.dfy` | the data stack: messages, length-prefixed frames, byte stream |
| `TunnelPool.dfy` | the tunnel pool, its operations run alone, refined to a FIFO queue |
| `PoolSteps.dfy` | the same pool with its operations split into their critical sections, in any interleaving |
| `Refill.dfy` | refill requests and the workers of one refill, in any interleaving |
| `ConcurrentRefills.dfy` | several refills of one controller on one pool, in any interleaving |
| `Consistency.dfy` | the replay window and the resource event guard |
| `Registry.dfy` | the canonical registry's secondary indexes |
| `Heartbeat.dfy` | heartbeat timeouts |
| `Base62.dfy` | Base62 codecs and the identifier generator |
| `Runs.dfy` | runs of a state machine: invariants, when a property is broken, costs that add up |
| `Basics.dfy`, `Bytes.dfy`, `Results.dfy`, `Strings.dfy` | sequences, byte strings, option and result types, `strings.TrimSpace` |

The pattern is the same throughout. An operation that updates an object is a method of a class, proved against a
function on values (the old state and the arguments give the new state and the result); a run is the repeated
application of that function, and the main results are lemmas about all runs. Methods of mutex-protected objects are
atomic, except where the code gives up the mutex in the middle (the pool and the refill workers): there each critical
section is a step, and the lemmas are about all interleavings.

Times are unbounded integers passed in by the caller (the clock is an input), durations and counters have Go's widths
where they can wrap: message ids wrap at 2^64, the received-bytes check at 2^32, the heartbeat sums at 2^63, and lengths
that do not fit a 32-bit field are truncated as the code does.

## What the code does differently from what one would expect

These are results of the proofs; each has a lemma with the exact condition, most also a concrete run or input.

- The heartbeat's miss count and its deadline agree at every instant if and only if no 64-bit quantity of the policy
  overflows (up to two wraps that cancel out) and the interval is more than one nanosecond
  (`Heartbeat.DeadMeansDeadline`).
- The pool's idle limit holds throughout a run if and only if no cancelled `Acquire` puts a tunnel back into a queue that
  is full and does not hold its id (`PoolSteps.LimitHoldsExactly`; `PoolSteps.LimitCanBePassed` is such a run). Every
  operation run alone respects it (`TunnelPool.LimitHoldsAlone`); with A threads between pop and commit the bound is the
  limit plus A (`PoolSteps.QueueIsBounded`), and it is attained for every limit and every A (`PoolSteps.BoundIsAttained`).
- Throughout a run no id is in two places if and only if no tunnel is put into the pool under the id of one in flight, and
  none is handed out that reports, white space included, the id of another one (`PoolSteps.OnePlaceExactly`); and the
  books of the pool balance, too, if and only if besides none is handed out under an id in use
  (`PoolSteps.SoundExactly`). In other runs tunnels get lost uncounted: `PoolSteps.DeficitIsLost` says how many by which
  steps, and `PoolSteps.TunnelsMissing` adds the idle tunnels that `PutIdle` replaces by others with their ids.
- An upsert with a blank id can drop other records from an index, namely when it leaves a key that others have; none
  with a nonblank id does (`Registry.IndexesAgreeExactly`, `Registry.BlankIDHidesOthers`). The index by name and scope
  loses an entry exactly when a service leaves a key that another service has (`Registry.NamesCompleteExactly`). A lookup
  by name and scope can find a service of another scope exactly if bars in the namespace, environment or name, other
  than the two that join them, cut the key into three normalised parts again (`Registry.NameKeySharedExactly`).
- An accepted event that comes again is accepted again if and only if its key has left the window, that is, as many keys
  have entered since it last did as the window holds, and the version of the resource is below the event's, which takes a
  reconciliation that lowered it (`Consistency.AcceptedAgainExactly`). It happens for every event, state and capacity
  (`Consistency.AcceptedTwice`), with a `SetVersion` or a snapshot that has an older version or omits the resource.
  Without such a reconciliation no event is accepted twice, whatever the window has forgotten
  (`Consistency.AcceptedVersionsIncrease`).
- Dedup keys and resource keys do not identify their parts: a pair of ids shares its key with another pair if and only if
  a colon of the key other than the one that joins them cuts it into two usable ids (`Consistency.KeySharedExactly`). So
  two resources can share a version.
- A comment on the event guard speaks of repeated event ids within one session epoch, but the dedup key has no epoch in
  it: an event id that a later epoch of the session uses again is taken for a repetition (`Consistency.EpochIsIgnored`).
- A frame of a type that the traffic stream does not expect fails one read and is gone; the next read goes on behind it,
  so only Close and Reset frames end a stream (`TrafficStream.AnyWire`).
- A timed-out write leaves the QUIC channel open, and the other end stays in step with what is written later if and only
  if the bytes that went out are a whole number of frames (`QuicControl.WriteStaysInStep`). A timed-out read leaves it
  open, too, and stays in step if and only if it had not taken a byte of the frame that it was reading
  (`QuicControl.ReadStaysInStep`). The same holds of a read of the traffic stream past the tunnel's deadline
  (`TrafficStream.TimeoutKeepsPipe`).
- The limit on concurrent tunnel opens is one per refill. For the controller it holds throughout a run if and only if the
  limiter never lets a worker go on while that many tunnels are being opened
  (`ConcurrentRefills.OpenLimitHoldsExactly`); n refills under way open at most n times as many
  (`ConcurrentRefills.OpensOfSeveral`), and some joint run of n refills does (`ConcurrentRefills.OpensAddUp`).
- Concurrent refills can pass the idle target of all of them (`ConcurrentRefills.TargetCanBePassed`). Idle stays at or
  below the highest effective target if and only if no worker stores a tunnel under a new id once it is reached, and
  nobody else adds too many (`ConcurrentRefills.TargetHoldsExactly`).
- A written traffic frame can be read back if and only if its payload is shorter than 2^32
  (`TrafficProtocol.ParseInvertsEncode`).
- Variable-width Base62 keeps the order of two numbers if and only if they have equally many digits or the smaller one is
  at most the leading digits of the larger (`Base62.VariableOrder`; 62 and 2 are out of order,
  `Base62.VariableIsNotOrdered`). Fixed-width Base62 always does (`Base62.FixedOrder`).
- A fragment that arrives again after its message was completed opens a new assembly
  (`ReassemblyRoundTrip.UnknownFragmentOpensAnother`), so the round trip is about duplicates that arrive before
  completion (`ReassemblyRoundTrip.RoundTrip`).

## Model

| member | source | states |
|---|---|---|
| ControlFragmentation.Config.Normalize | ltfp/transport/control_fragmentation.go:28-67 | unset fields become the defaults, set ones are kept, and normalising fails exactly when an explicit frame limit cannot hold a header |
| ControlFragmentation.EncodeControlFragment | ltfp/transport/control_fragmentation.go:269-281 | the buffer filled field by field is the header's encoding followed by the payload |
| ControlFragmentation.DecodeInvertsEncode | ltfp/transport/control_fragmentation.go:269-339 | decoding an encoded header and payload returns both, exactly for the headers that the decoder considers valid |
| ControlFragmentation.EncodeInvertsDecode | ltfp/transport/control_fragmentation.go:269-339 | re-encoding any accepted buffer gives the same bytes, except that the ignored byte 5 becomes zero |
| ControlFragmentation.ChunkBounds | ltfp/transport/control_fragmentation.go:87-133 | every chunk of a payload is nonempty, fits a frame with its header, and starts inside the payload |
| ControlFragmentation.ChunksCover | ltfp/transport/control_fragmentation.go:87-133 | the computed number of parts is just enough: the last chunk reaches the end of the payload and starts before it |
| ControlFragmentation.Fragmenter.Fragment | ltfp/transport/control_fragmentation.go:87-133 | what Fragment returns for any frame and counter, errors included, and how the 64-bit counter moves |
| ControlFragmentation.Fragmenter.Split | ltfp/transport/control_fragmentation.go:104-132 | the loop that cuts a payload produces exactly the part frames of the specification, under the next message id |
| ControlFragmentation.AcceptedExactly | ltfp/transport/control_fragmentation.go:87-133 | which frames are accepted, by type and size alone: all but fragments, whole up to the frame limit, or in at most 65535 parts up to 2^32 - 1 bytes, as few as hold them |
| ControlFragmentation.Assembly.AddFragment | ltfp/transport/control_fragmentation.go:352-416 | a fragment fills its slot and is counted, or is refused with the code's error and changes nothing; repetitions and the 32-bit overflow check included |
| ControlFragmentation.Assembly.Payload | ltfp/transport/control_fragmentation.go:427-464 | the payload is the concatenation of the slots, returned exactly when no slot is empty and the total is the declared one |
| ControlFragmentation.Reassembler.ReassembleAt | ltfp/transport/control_fragmentation.go:161-208 | a call does what the step function on open assemblies says, with the frame ready, nothing ready, or an error; what that means is said by the rows on `ReassemblySafety` |
| ControlFragmentation.Reassembler.EnsureAssembly | ltfp/transport/control_fragmentation.go:211-246 | the assembly of a message is found as it is, or created if there is room and the total is possible; otherwise the error of the code and no change |
| ControlFragmentation.Reassembler.CleanupExpired | ltfp/transport/control_fragmentation.go:249-257 | exactly the assemblies idle for longer than the TTL go |
| ReassemblySafety.FragmentDecidesItsMessage | ltfp/transport/control_fragmentation.go:186-208 | after a decoded fragment its message is open exactly if the answer was "not ready"; so a refused fragment discards its message and the last one closes it; an accepted one is then in its slot of an assembly with its type, count, total and time |
| ReassemblySafety.OthersStay | ltfp/transport/control_fragmentation.go:161-257 | no input changes another message, except that a decoded fragment drops exactly those idle for longer than the TTL |
| ReassemblySafety.RefusedExactly | ltfp/transport/control_fragmentation.go:161-464 | in any run a fragment is refused exactly if it disagrees with its message or its slot, has too many bytes, or is the last one of a message with a gap or a wrong length; and for a message that is not open, also if the cap is reached or the total is impossible |
| ReassemblySafety.AlwaysSafe | ltfp/transport/control_fragmentation.go:161-257 | for arbitrary input frames at arbitrary times: never more open messages than the cap; each open one has 0 < received < slots and an exact byte count, and each of its slots holds a fragment that was accepted for it, since when the message has been open at every input, has not expired, and none of its fragments was refused or completed it |
| ReassemblySafety.AddKeepsGenuine | ltfp/transport/control_fragmentation.go:352-416 | an accepted fragment keeps the byte count exact and each slot traceable to a fragment accepted since the message was opened |
| ReassemblySafety.ReadyIsGenuine | ltfp/transport/control_fragmentation.go:352-464 | a message handed out for a fragment is the in-order concatenation of nonempty fragments, that one included, that were all accepted with its id, type, count and total, one per position, since when none of the message was refused or completed it, and has exactly the declared length |
| ReassemblyRoundTrip.RoundTrip | ltfp/transport/control_fragmentation.go:87-208 | for any interleaving of the parts of any frames, split or whole, with duplicates before completion, within the cap and the TTL: no call fails, and a frame comes out, unchanged, exactly at its last missing part |
| ReassemblyRoundTrip.CompletedOnce | ltfp/transport/control_fragmentation.go:352-464 | a frame all of whose parts were delivered comes out at exactly one delivery, the last of its own |
| ReassemblyRoundTrip.UnknownFragmentOpensAnother | ltfp/transport/control_fragmentation.go:161-246 | a fragment of a message that is not open, such as a repetition after completion, opens another assembly exactly if there is room and its sizes are plausible, and is an error otherwise |
| ReassemblyRoundTrip.StepMatches | ltfp/transport/control_fragmentation.go:161-257 | one delivery keeps the open assemblies equal to "the chunks delivered so far of each frame that is underway" |
| ReassemblyRoundTrip.PictureCompletes | ltfp/transport/control_fragmentation.go:419-464 | an assembly is complete exactly when it has all chunks, and then yields the original frame |
| ReassemblyRoundTrip.FragmenterSends | ltfp/transport/control_fragmentation.go:87-133 | one fragmenter, from any counter, gives up to 2^64 frames distinct ids, and returns exactly the parts that the round trip is about |
| QuicControl.ParseInvertsEncode | ltfp/transport/quicbinding/control_channel.go:288-340 | a written wire frame is parsed back, consuming exactly its bytes whatever follows |
| QuicControl.ParseAnyFrame | ltfp/transport/quicbinding/control_channel.go:288-340 | any frame that the length field can describe is read back, or refused as too large exactly above the limit |
| QuicControl.ParseCutFrame | ltfp/transport/quicbinding/control_channel.go:288-313 | a proper prefix of a frame within the limit is a short read |
| QuicControl.FirstFrameDecides | ltfp/transport/quicbinding/control_channel.go:126-174 | what the first frame on the wire makes of a read: the frame or error of the reassembler, or the read goes on; above the limit, or cut off, it ends the read without an answer of the reassembler |
| QuicControl.WireRoundTrip | ltfp/transport/quicbinding/control_channel.go:76-174 | any sequence of accepted frames, fragmented at any counters (so by one writer or several) and written, is read back by the read loop as exactly that sequence, consuming every byte and leaving no assembly open |
| QuicControl.ReassemblerIsFaithful | ltfp/transport/quicbinding/control_channel.go:99-173 | every accepted frame becomes at least one part within the frame size limit, and the reassembler gives the frame back at the last part |
| QuicControl.QuicControlChannel.WriteControlFrame | ltfp/transport/quicbinding/control_channel.go:76-123 | a successful write appends exactly the bytes of the frame; one that runs out of time leaves the channel open after a prefix of them, any other failure closes it after a prefix, and a refused frame writes nothing |
| QuicControl.QuicControlChannel.ReadControlFrame | ltfp/transport/quicbinding/control_channel.go:126-174 | the read loop does what the specification of a read says of the incoming bytes and closes the channel on an error; or it runs out of time after some whole rounds and part of a frame, and leaves the channel open |
| QuicControl.QuicControlChannel.ReadFrame | ltfp/transport/quicbinding/control_channel.go:288-313 | one frame is read off the stream, or the stream is too short or the frame too large, or time runs out with part of the frame taken |
| QuicControl.QuicControlChannel.WriteFrame | ltfp/transport/quicbinding/control_channel.go:315-340 | the header, then the payload of a frame within the limits; a failure leaves a prefix of them, and nothing of a frame beyond the limits |
| QuicControl.WriteAll | ltfp/transport/quicbinding/control_channel.go:342-355 | everything is written however small the pieces that the stream accepts, or the write fails or times out after a prefix |
| QuicControl.ReadFull | ltfp/transport/quicbinding/control_channel.go:288-313 | exactly the requested number of bytes, however they arrive, or a drained stream, or a timeout with fewer bytes dropped |
| QuicControl.WriteStaysInStep | ltfp/transport/quicbinding/control_channel.go:112-123 | after a write that stopped short, whatever is written later, the parser sees whole parts of the message and then all later frames, with nothing left over, exactly if the bytes sent are a whole number of frames |
| QuicControl.ReadStaysInStep | ltfp/transport/quicbinding/control_channel.go:154-163 | after a read that ran out of time within a frame, the parser still sees a rest of the frames exactly if no byte of that frame was taken |
| QuicControl.ParsesExactly | ltfp/transport/quicbinding/control_channel.go:288-340 | the parser takes exactly given frames off a wire if and only if the wire is their encoding |
| QuicControl.RetryAfterTimeout | ltfp/transport/quicbinding/control_channel.go:154-163 | a read that ran out of time between two frames can be repeated: the next one gives what it would have given, fragments taken before included |
| EndToEnd.SendAll | ltfp/transport/quicbinding/control_channel.go:76-123 | repeated writes put on the stream what the round trip is about |
| EndToEnd.ReceiveAll | ltfp/transport/quicbinding/control_channel.go:126-174 | repeated reads give what the specification of a sequence of reads gives, up to and including the first error |
| EndToEnd.SendAndReceive | ltfp/transport/quicbinding/control_channel.go:76-174 | frames sent on one channel come out of the other, exactly they and in order, with no byte and no assembly left |
| GrpcTunnel.GRPCH2Tunnel.Read | ltfp/transport/grpcbinding/tunnel.go:115-164 | a read into a nonempty buffer returns a nonempty prefix of the unread bytes, however they are cut into messages, or the recorded end when nothing is left; empty messages are skipped; past a deadline pending bytes still come, and otherwise it times out and leaves every byte unread, or closes the stream and loses them |
| GrpcTunnel.GRPCH2Tunnel.Receive | ltfp/transport/grpcbinding/stream_adapter.go:135-190 | the next message, or how the stream ended, or a timeout, which changes nothing if the deadline had passed before and closes the stream if it passes during the wait |
| GrpcTunnel.GRPCH2Tunnel.Write | ltfp/transport/grpcbinding/tunnel.go:167-200 | the payload goes out as one message, or not at all; a stream reported closed closes the tunnel and a failed send breaks it, for good; running out of time leaves the state, but while sending it closes the stream in both directions, and then no write succeeds |
| GrpcTunnel.GRPCH2Tunnel.Flush | ltfp/transport/grpcbinding/tunnel.go:273-283 | succeeds exactly when no received byte is unread locally |
| GrpcTunnel.GRPCH2Tunnel.Recyclable | ltfp/transport/grpcbinding/tunnel.go:296-311 | alive, never failed, its stream not closed by a deadline, and no byte of earlier traffic pending |
| GrpcTunnel.GRPCH2Tunnel.CopyFromPendingRead | ltfp/transport/grpcbinding/tunnel.go:402-430 | pending bytes are handed out from the front, and the rest stays pending |
| TrafficProtocol.WireTypesInverse | ltfp/runtime/protocol.go:185-230 | the two wire type tables are inverse to each other |
| TrafficProtocol.ParseInvertsEncode | ltfp/runtime/protocol.go:83-160 | a writable frame is read back, whatever follows it, exactly when its length fits the 32-bit field |
| TrafficProtocol.ParseAnyFrame | ltfp/runtime/protocol.go:126-160 | any encoded frame of a known type: read back if a writer takes it, refused with its payload unread if it is too large, refused with its payload taken if that is invalid |
| TrafficProtocol.ParseCutFrame | ltfp/runtime/protocol.go:126-160 | a proper prefix of a frame within the limit is a short read |
| TrafficProtocol.ParseUnknownType | ltfp/runtime/protocol.go:137-140 | a frame whose type byte no type has is refused after its header |
| TrafficProtocol.WriteFrame | ltfp/runtime/protocol.go:83-123 | the whole frame goes out, or a prefix of it and an error; an unwritable frame sends nothing |
| TrafficProtocol.ReadFrame | ltfp/runtime/protocol.go:126-160 | the outcome depends on the unread bytes only, not on the messages that they arrive in; a timeout leaves part of a frame taken, but not all of it |
| TrafficProtocol.WriteFull | ltfp/runtime/protocol.go:310-324 | everything is written or an error follows a prefix |
| TrafficProtocol.ReadFull | ltfp/runtime/protocol.go:327-337 | the buffer is filled from the unread bytes, or the tunnel is drained, or a deadline passes with fewer bytes taken |
| TrafficStream.Pipe | ltfp/runtime/stream.go:117-214 | for any writes followed by a Close or Reset frame and any read sizes: what has been received is a prefix of what was written; a read gives at least one byte while any is missing, and from then on end of stream or the error with the body of the Reset frame, without touching a byte after that frame |
| TrafficStream.PipeDrains | ltfp/runtime/stream.go:147-214 | as many nonempty reads as there are bytes receive everything |
| TrafficStream.PipeInvariant | ltfp/runtime/stream.go:147-214 | received and remaining bytes always make up the written ones |
| TrafficStream.ReadStep | ltfp/runtime/stream.go:147-214 | one read of such a stream makes progress and leaves such a stream |
| TrafficStream.AnyWire | ltfp/runtime/stream.go:147-214 | for any bytes on the wire and any reads: the data received and pending is exactly that of the frames taken; only empty Data frames are skipped; end of stream is returned only at a Close frame, a reset only with the body of a Reset frame, and an error only for a bad frame, a short wire or a frame of another type |
| TrafficStream.EndsForGood | ltfp/runtime/stream.go:162-207 | once a read has returned end of stream or a reset, every later read of a nonempty buffer returns the same |
| TrafficStream.ChunksJoin | ltfp/runtime/stream.go:117-144 | cutting a payload into Data frames loses nothing and respects the frame size |
| TrafficStream.TrafficDataStream.Write | ltfp/runtime/stream.go:117-144 | all of the payload is on the wire as Data frames exactly if no error is returned; otherwise whole frames for the reported count, and at most part of one more |
| TrafficStream.TrafficDataStream.Read | ltfp/runtime/stream.go:147-214 | a read does what the specification says of the unread bytes, whose meaning is said by `Pipe`, `AnyWire` and `EndsForGood`; a timeout changes only what is left on the wire |
| TrafficStream.WriteAllAndEnd | ltfp/runtime/stream.go:117-144 | any writes and a Close or Reset frame put on the wire what the pipe lemmas start from |
| TrafficStream.ReadAll | ltfp/runtime/stream.go:147-226 | a sequence of reads gives the results that the pipe lemmas speak of |
| TrafficStream.SendAndReceive | ltfp/runtime/stream.go:117-214 | both ends of the pipe: any writes and a Close or Reset on one stream object, the messages cut anew on the way, and any reads on another; each read gives what it must |
| TrafficStream.TimeoutKeepsPipe | ltfp/runtime/stream.go:170-174 | a read of a pipe that ran out of time within a frame leaves a pipe exactly if no byte of that frame was taken |
| TrafficStream.RetryAfterTimeout | ltfp/runtime/stream.go:170-181 | a read that ran out of time between two frames can be repeated: the next one gives what it would have given |
| TunnelPool.RepresentedKeys | ltfp/transport/tunnel_pool.go:132-144 | the idle map, the order list and the timestamp map represent a queue with distinct keys, as long as the list has no duplicates and all three have the same keys |
| TunnelPool.DeleteRefines | ltfp/transport/tunnel_pool.go:290-295 | deleting a key from the maps and from the list keeps the representation and removes exactly its entry |
| TunnelPool.PopRefines | ltfp/transport/tunnel_pool.go:622-638 | under the representation invariant no key at the head of the list is stale, and popping takes the oldest entry |
| TunnelPool.InMemoryTunnelPool.PutIdle | ltfp/transport/tunnel_pool.go:180-221 | every error and its condition; an id already idle is replaced in place, a new one goes to the end and closes the notify channel |
| TunnelPool.PutIdleOutcome | ltfp/transport/tunnel_pool.go:180-221 | accepted exactly if idle, with an id, not in use, and known or within the limit; then it is at its old place or at the end, the others stay, and growth is announced; otherwise nothing changes and the error names a reason that holds |
| TunnelPool.InMemoryTunnelPool.Acquire | ltfp/transport/tunnel_pool.go:224-278 | run alone: closes the unfit tunnels in front, then hands out the next one, or returns it to the queue if the caller has gone, or waits on the current channel; in terms of what was seen of the tunnels by `AcquireOutcome` |
| TunnelPool.AcquireOutcome | ltfp/transport/tunnel_pool.go:224-278 | a tunnel that is handed out was idle, neither done nor failed, at the first and the last look, was not found dead, and is now in use; every tunnel closed was seen not idle, done, failed or dead; if the caller has gone, the tunnel is queued again with its time |
| TunnelPool.HealthyStays | ltfp/transport/tunnel_pool.go:508-558 | a tunnel that is healthy at each look and that no probe finds dead is never closed by Acquire |
| TunnelPool.UnfitExactly | ltfp/transport/tunnel_pool.go:508-558 | Acquire closes a tunnel exactly if it saw it not idle, done or failed before or after the probe, or the probe found it dead |
| TunnelPool.UnfitPrefixBounds | ltfp/transport/tunnel_pool.go:250-277 | every tunnel closed by Acquire is unfit, and the first one left is not |
| TunnelPool.InMemoryTunnelPool.PopFit | ltfp/transport/tunnel_pool.go:235-272 | the loop of Acquire |
| TunnelPool.InMemoryTunnelPool.Settle | ltfp/transport/tunnel_pool.go:259-276 | the commit, or the return to the queue with the original insertion time |
| TunnelPool.InMemoryTunnelPool.PopIdle | ltfp/transport/tunnel_pool.go:622-638 | takes the oldest entry; the stale-index skip does not fire |
| TunnelPool.InMemoryTunnelPool.PopFirstExisting | ltfp/transport/tunnel_pool.go:622-638 | the popping loop for arbitrary maps and lists: the first listed key that is still idle |
| TunnelPool.InMemoryTunnelPool.PushIdle | ltfp/transport/tunnel_pool.go:640-658 | an entry goes back to the end whatever the limit, unless its id is idle or blank |
| TunnelPool.InMemoryTunnelPool.RemoveIdleOrder | ltfp/transport/tunnel_pool.go:661-670 | removes the first occurrence of an id from the list |
| TunnelPool.InMemoryTunnelPool.Remove | ltfp/transport/tunnel_pool.go:281-308 | removes the id from the queue and from use, or reports that it is in neither |
| TunnelPool.RemoveOutcome | ltfp/transport/tunnel_pool.go:281-308 | afterwards the id is neither queued nor in use, all others stay, and it succeeds exactly if the id was in one of both |
| TunnelPool.InMemoryTunnelPool.Recycle | ltfp/transport/tunnel_pool.go:311-355 | takes the tunnel out of use, and back to the queue counted as recycled, or counted as closed, with each reason |
| TunnelPool.RecycleOutcome | ltfp/transport/tunnel_pool.go:311-355 | a tunnel in use leaves use and is counted once: as recycled, and queued, exactly if the caller is there and it is recyclable, flushed and welcome in the queue; as closed otherwise |
| TunnelPool.EvictionKeepsYounger | ltfp/transport/tunnel_pool.go:358-402 | TTL eviction keeps exactly the younger entries in their order, and drops one entry per expired key |
| TunnelPool.YoungerExactly | ltfp/transport/tunnel_pool.go:358-402 | of the queue stay exactly the tunnels with a time that is less than the TTL ago |
| TunnelPool.InMemoryTunnelPool.EvictExpiredIdle | ltfp/transport/tunnel_pool.go:358-402 | the queue becomes its younger part, and the ids reported are the expired ones, each once |
| TunnelPool.SweepKeepsLiving | ltfp/transport/tunnel_pool.go:405-476 | a sweep of the whole queue leaves exactly the tunnels that are not zombies, in order, whatever the order of the map iteration |
| TunnelPool.ZombieExactly | ltfp/transport/tunnel_pool.go:508-592 | a sweep takes a tunnel for a zombie exactly if it sees it not idle, done or failed, or, with a TTL, without a time or too old, or its probe finds it dead |
| TunnelPool.LivingExactly | ltfp/transport/tunnel_pool.go:405-476 | of the queue stay exactly the tunnels that are healthy, not overdue and not found dead |
| TunnelPool.SweepSparesLiving | ltfp/transport/tunnel_pool.go:405-476 | a sweep that is cut short, too, leaves every tunnel that is not a zombie |
| TunnelPool.InMemoryTunnelPool.EvictZombieIdle | ltfp/transport/tunnel_pool.go:405-476 | run alone: tunnels that are not zombies stay, and no others if it is not cancelled, with one close per tunnel that goes |
| TunnelPool.InMemoryTunnelPool.EvictCandidates | ltfp/transport/tunnel_pool.go:445-475 | of the candidates only those go whose insertion time is still the one that the sweep saw |
| TunnelPool.InMemoryTunnelPool.FindZombies | ltfp/transport/tunnel_pool.go:422-440 | judges the snapshot up to the cancellation |
| TunnelPool.LimitHoldsAlone | ltfp/transport/tunnel_pool.go:180-355 | run alone, PutIdle, Acquire, Recycle and Remove all keep the queue within the limit |
| PoolSteps.AcquireIsItsSteps | ltfp/transport/tunnel_pool.go:224-278 | an undisturbed run of one thread's steps has exactly the effect of the method Acquire, for any queue and any observations |
| PoolSteps.RecycleIsItsSteps | ltfp/transport/tunnel_pool.go:311-355 | an undisturbed run of the steps of Recycle has exactly the effect of the method Recycle |
| PoolSteps.NoSharedTunnels | ltfp/transport/tunnel_pool.go:180-278 | in every state reached without a clash idle, in-use, in-probe and in-recycle ids are pairwise disjoint, and no two threads hold tunnels with one id |
| PoolSteps.SharedIDsClash | ltfp/transport/tunnel_pool.go:190-219 | an accepted PutIdle puts an id in two places exactly if its id is in flight |
| PoolSteps.OnePlaceStep | ltfp/transport/tunnel_pool.go:180-658 | a step puts an id in two places exactly if it is an accepted PutIdle of an id in flight, or hands out a tunnel that reports the id of another one |
| PoolSteps.OnePlaceExactly | ltfp/transport/tunnel_pool.go:180-658 | throughout a run no id is in two places exactly if no such step occurs |
| PoolSteps.SoundExactly | ltfp/transport/tunnel_pool.go:180-693 | ids stay apart and the counters balanced throughout a run exactly if besides no tunnel is handed out under an id in use |
| PoolSteps.QueueIsBounded | ltfp/transport/tunnel_pool.go:200-209 | idle plus in-probe tunnels never exceed the limit plus the number of threads between pop and commit |
| PoolSteps.LimitCanBePassed | ltfp/transport/tunnel_pool.go:640-658 | a run of four steps that exceeds a limit of one |
| PoolSteps.LimitStep | ltfp/transport/tunnel_pool.go:180-658 | a step from within the limit passes it exactly if a cancelled Acquire puts a tunnel back into a full queue that does not hold its id |
| PoolSteps.LimitHoldsExactly | ltfp/transport/tunnel_pool.go:180-658 | the queue stays within the limit throughout a run exactly if no such step occurs |
| PoolSteps.BoundIsAttained | ltfp/transport/tunnel_pool.go:235-263 | for every positive limit and every number A some run with at most A threads between pop and commit has limit + A idle tunnels |
| PoolSteps.NoLostWakeup | ltfp/transport/tunnel_pool.go:236-249 | in every reachable state a waiter whose captured channel is still the current one implies an empty queue |
| PoolSteps.GrowthWakesEveryone | ltfp/transport/tunnel_pool.go:673-676 | every step that grows the queue lets every waiter go on |
| PoolSteps.NothingIsLost | ltfp/transport/tunnel_pool.go:601-619 | in every state reached by such steps: fresh insertions equal idle + in use + in flight + removed + closedCount, and recycledCount plus the pending increments equals the returns from use |
| PoolSteps.DeficitIsLost | ltfp/transport/tunnel_pool.go:640-658 | whatever ids come in, what is missing of the fresh insertions after any run is the sum of what each step loses by its id clashing with another |
| PoolSteps.TunnelsMissing | ltfp/transport/tunnel_pool.go:200-220 | counted by tunnels that came in: missing are those, and the idle ones that PutIdle replaced by others with their ids |
| PoolSteps.StepSound | ltfp/transport/tunnel_pool.go:180-693 | every step that neither clashes nor forgets a tunnel in use keeps one place per id and the balance of the counters |
| Refill.OnceUntilForgotten | ltfp/transport/pool_events.go:124-155 | for any clock, a request is refused exactly if an earlier call with its id was new and no call since has come more than the TTL after it |
| Refill.RefillRequestDeduplicator.MarkSeen | ltfp/transport/pool_events.go:124-144 | a call forgets the expired ids, then tells whether the id is new and records it |
| Refill.RefillRequestDeduplicator.CleanupLocked | ltfp/transport/pool_events.go:147-155 | exactly the records older than the TTL go |
| Refill.RefillController.HandleRefillRequest | ltfp/transport/refill_controller.go:127-148 | invalid requests leave no trace, a repeated id is answered without a refill, and a new one starts one towards idle plus the requested delta |
| Refill.RefillController.RefillToTarget | ltfp/transport/refill_controller.go:151-241 | with one worker, given the answers of limiter and producer: nothing is done at or above the target; otherwise the counts and the pool are those of a run of the worker machine with these answers, and match the shortfall and the growth of the pool |
| Refill.PerformsIsARun | ltfp/transport/refill_controller.go:185-233 | the single worker of that method is a run of the machine of which all else is proved |
| Refill.Config.ClampTargetIdle | ltfp/transport/refill_controller.go:244-254 | the target within the configured limits that is nearest to the requested one |
| Refill.Config.Normalize | ltfp/transport/refill_controller.go:25-69 | succeeds exactly if the limits do not contradict each other and the limiter can open; unset fields get the defaults, set ones are kept, and exactly the valid configurations are not changed |
| Refill.CountsMatchShortfall | ltfp/transport/refill_controller.go:169-233 | under any interleaving of the workers and any other use of the pool: opened + failed never passes the shortfall, one refill never has more opens under way than the limit, and at the end none, and the counts equal the shortfall unless the limiter failed for every worker |
| Refill.EveryAnswerCounts | ltfp/transport/refill_controller.go:187-233 | in every interleaving each answer counts once: at the end opened is how many tunnels the pool took, and failed the workers that the limiter turned away, the attempts without a tunnel and the tunnels that the pool refused |
| ConcurrentRefills.OpensOfSeveral | ltfp/transport/refill_controller.go:127-241 | in every state that any interleaving of requests, workers and other users of the pool reaches: each refill opens and fails no more than it was short of, and all together have at most the limit times the refills under way being opened |
| ConcurrentRefills.OpensAddUp | ltfp/transport/refill_controller.go:127-241 | for every n a joint run of n refills that has n times the limit being opened |
| ConcurrentRefills.OpenLimitHoldsExactly | ltfp/transport/refill_controller.go:163-201 | the limit holds for the controller throughout a run exactly if the limiter never lets a worker go on while that many tunnels are being opened |
| ConcurrentRefills.StepOpens | ltfp/transport/refill_controller.go:185-233 | a step adds one to the tunnels being opened exactly if it is the limiter letting a worker go on, and no other step adds any |
| ConcurrentRefills.IdleTogether | ltfp/transport/refill_controller.go:151-241 | after any joint run idle is what it was, plus what the refills have added, each at most its shortfall, plus what others have changed |
| ConcurrentRefills.TargetHoldsExactly | ltfp/transport/refill_controller.go:151-241 | idle stays at or below the highest effective target exactly if no worker stores a tunnel under a new id once it is reached, and nobody else adds too many |
| ConcurrentRefills.TargetCanBePassed | ltfp/transport/refill_controller.go:127-241 | for any number of concurrent requests for one tunnel more, a joint run that ends with one more for each |
| Refill.IdleReachesTarget | ltfp/transport/refill_controller.go:151-241 | without other users of the pool idle never passes the effective target, ends short of it by exactly the failures, the replaced ids and the jobs left over, and so with new ids reaches it exactly if nothing fails |
| Refill.RefillEnds | ltfp/transport/refill_controller.go:185-233 | the workers end after at most six steps per job and one more each |
| Refill.NobodyIsStuck | ltfp/transport/refill_controller.go:187-231 | a worker that is not gone can always go on once the limiter or the producer has answered |
| Consistency.WindowIsRecentInsertions | ltfp/consistency/replay_window.go:26-46 | the window is the last `capacity` distinct insertions, without duplicates and never longer; hits do not renew a key |
| Consistency.ReplayWindow.SeenOrAdd | ltfp/consistency/replay_window.go:26-46 | true exactly for a key in the window; the list and the set stay equal, and the oldest key is evicted |
| Consistency.CollisionsComeFromColons | ltfp/consistency/event.go:22-35 | some key of a left part, a session id or a resource type, is also one of a shorter left part exactly if one of its colons splits it |
| Consistency.KeySharedExactly | ltfp/consistency/event.go:22-35 | a pair of ids shares its key with another pair exactly if a colon other than the joining one cuts the key into two usable ids |
| Consistency.ResourceEventGuard.Evaluate | ltfp/consistency/resource_event_guard.go:49-93 | decision and new state for every event, error codes included; what they mean is said by `EvaluateOutcome` |
| Consistency.EvaluateOutcome | ltfp/consistency/resource_event_guard.go:49-93 | a well-formed event is a duplicate exactly if the window knows it or it has the version held, rejected as a rollback exactly if unknown and older, accepted exactly if unknown and newer; both versions reported are the one held afterwards; a malformed one is rejected for what is wrong with it and changes nothing |
| Consistency.KeysExactly | ltfp/consistency/resource_event_guard.go:144-184 | which events are well formed, and which field is wrong for each error |
| Consistency.AnswersExactly | ltfp/consistency/resource_event_guard.go:49-129 | the same over any run, where an event is known exactly if its key came in, or was there at the start, and fewer keys than the capacity have come after it |
| Consistency.KnownExactly | ltfp/consistency/replay_window.go:26-46 | a key is in the window exactly if fewer keys than the capacity have come after it, counting those younger than it at the start |
| Consistency.HeldIsLargest | ltfp/consistency/resource_event_guard.go:49-93 | over calls that are all events the version held is the largest of the first one and those accepted |
| Consistency.ReconciliationSets | ltfp/consistency/resource_event_guard.go:95-129 | what a reconciliation leaves every resource with |
| Consistency.EpochIsIgnored | ltfp/consistency/event.go:21-35 | two events that differ in the session epoch only are the same event |
| Consistency.ResourceEventGuard.SetVersion | ltfp/consistency/resource_event_guard.go:96-110 | overwrites the version, unless it is zero or the key is blank |
| Consistency.ResourceEventGuard.ReplaceAllVersions | ltfp/consistency/resource_event_guard.go:113-129 | the versions become the usable entries of the snapshot |
| Consistency.AcceptedVersionsIncrease | ltfp/consistency/resource_event_guard.go:49-93 | over any run of events and reconciliations, with any window capacity, accepted versions of a resource strictly increase unless a reconciliation between them lowers it; so a forgotten replay is not accepted again |
| Consistency.ReconciliationReopens | ltfp/consistency/resource_event_guard.go:95-129 | after a reconciliation an event unknown to the window is accepted exactly if it is newer than what was left: the version set, the version in the snapshot, or 0 if the snapshot omits the resource |
| Consistency.ForgottenExactly | ltfp/consistency/replay_window.go:26-46 | a key that was ever put into the window has left it exactly if, since it was last put there, as many other keys were as the window holds |
| Consistency.AcceptedAgainExactly | ltfp/consistency/resource_event_guard.go:49-129 | an accepted event that comes again, whatever became of it in between, is accepted again exactly if its key has been forgotten and the version of its resource is below its own, and then a reconciliation in between lowered it |
| Consistency.AcceptedTwice | ltfp/consistency/resource_event_guard.go:49-129 | for every capacity, state and acceptable event, and every reconciliation that leaves the resource older, a run in which the event is accepted twice |
| Consistency.Converges | ltfp/consistency/resource_event_guard.go:49-93 | events with pairwise distinct, unseen dedup keys, in any two orders and through windows of any two capacities, end with the same versions: for each resource the maximum, and no resource that no event names |
| Consistency.FreshRunTakesMaximum | ltfp/consistency/resource_event_guard.go:49-93 | after each prefix of such a run every version is the maximum of the start and the prefix |
| Registry.ReindexAgrees | ltfp/registry/canonical.go:89-178 | an upsert keeps an index equal to a full scan exactly unless it drops the bucket of other records, which takes a blank id |
| Registry.IndexesAgree | ltfp/registry/canonical.go:89-178 | so after any run of harmless upserts, such as all with nonblank ids, they agree |
| Registry.IndexesAgreeExactly | ltfp/registry/canonical.go:89-178 | all four indexes agree with full scans up to the first upsert that drops the bucket of other records, and that one breaks it |
| Registry.BlankIDHidesOthers | ltfp/registry/canonical.go:403-421 | three upserts after which a stored session is missing from its connector's listing |
| Registry.RemoveIndexBuckets | ltfp/registry/canonical.go:403-421 | what removing does to each bucket; a blank value drops the bucket, an emptied one goes |
| Registry.AddIndexBuckets | ltfp/registry/canonical.go:388-400 | what adding does to each bucket; blank keys and values are ignored |
| Registry.UpsertNameExact | ltfp/registry/canonical.go:106-127 | name entries always point to a service with that key; completeness survives an upsert exactly unless the service leaves a key that another has |
| Registry.NamesAlwaysSound | ltfp/registry/canonical.go:106-127 | soundness over any run, with any ids |
| Registry.NamesCompleteExactly | ltfp/registry/canonical.go:106-127 | completeness over runs, up to the first upsert that leaves a shared key, which breaks it |
| Registry.NameKeyIdentifies | ltfp/registry/canonical.go:443-449 | a key determines name, namespace and environment if the latter two contain no bar |
| Registry.NameKeysCollide | ltfp/registry/canonical.go:443-449 | two scopes with one key |
| Registry.KeySharedExactly | ltfp/registry/canonical.go:443-449 | a normalised namespace, environment and name share their key with another triple exactly if bars other than the two joining ones cut the key into three normalised parts |
| Registry.NameKeySharedExactly | ltfp/registry/canonical.go:443-449 | the same for names and scopes as callers give them |
| Registry.CanonicalRegistry.UpsertSession | ltfp/registry/canonical.go:89-103 | the new table and index |
| Registry.CanonicalRegistry.UpsertService | ltfp/registry/canonical.go:111-127 | the new table and name index |
| Registry.CanonicalRegistry.UpsertInstance | ltfp/registry/canonical.go:135-155 | the new table and both indexes |
| Registry.CanonicalRegistry.UpsertRoute | ltfp/registry/canonical.go:163-178 | the new table and index; the old entry is always removed first |
| Registry.TablesHoldLatest | ltfp/registry/canonical.go:84-178 | after any run each of the four tables holds exactly the latest record upserted under each trimmed id |
| Registry.StepHolds | ltfp/registry/canonical.go:84-178 | an upsert puts its record under its trimmed id and touches no other record |
| Registry.UpsertedServiceIsFound | ltfp/registry/canonical.go:106-127 | a service with a nonblank id is found by its name and scope right after its upsert |
| Registry.CanonicalRegistry.ListSessionsByConnector | ltfp/registry/canonical.go:231-243 | the stored records of the bucket, each once, for any state; what a full scan finds whenever the index agrees with the table; nothing for a blank connector |
| Registry.CanonicalRegistry.ListServiceInstancesByConnector | ltfp/registry/canonical.go:259-271 | the same for instances by connector |
| Registry.CanonicalRegistry.ListServiceInstancesByLogicalService | ltfp/registry/canonical.go:274-286 | the same for instances by service |
| Registry.CanonicalRegistry.ListRoutesByLogicalService | ltfp/registry/canonical.go:323-335 | the same for routes by service |
| Registry.CanonicalRegistry.FindLogicalServiceByNameScope | ltfp/registry/canonical.go:203-212 | the service of the index entry; it has the requested key, and while the name index is complete none is missed |
| Heartbeat.Policy.Normalize | ltfp/transport/control_heartbeat.go:22-45 | fails exactly on a negative grace; otherwise fills in defaults and keeps what was set |
| Heartbeat.DeadMeansDeadline | ltfp/transport/control_heartbeat.go:146-187 | the count of missed windows reaches the threshold exactly from the deadline on, at every instant, if and only if no 64-bit quantity of the policy overflows |
| Heartbeat.DeadAfterSilence | ltfp/transport/control_heartbeat.go:99-187 | for every history of a started monitor: dead exactly from threshold * interval + grace after the last sign of life |
| Heartbeat.DeadWhen | ltfp/transport/control_heartbeat.go:146-187 | the wrapped and saturated miss count in terms of elapsed windows, without division |
| Heartbeat.MissesAreWindows | ltfp/transport/control_heartbeat.go:146-187 | as long as nothing overflows the count is the number of whole intervals since the grace was over |
| Heartbeat.HistoryReference | ltfp/transport/control_heartbeat.go:99-133 | the three timestamps after any history: the first event, the last send, the last receive |
| Heartbeat.HeartbeatMonitor.Start | ltfp/transport/control_heartbeat.go:99-106 | only the first start counts |
| Heartbeat.HeartbeatMonitor.ObserveSend | ltfp/transport/control_heartbeat.go:109-117 | records the send, and starts the monitor if needed |
| Heartbeat.HeartbeatMonitor.ObserveReceive | ltfp/transport/control_heartbeat.go:120-128 | records the receive, and starts the monitor if needed |
| Heartbeat.HeartbeatMonitor.ShouldSend | ltfp/transport/control_heartbeat.go:136-143 | due exactly from one interval after the last send, or after the start before any send |
| Base62.SymbolOrder | agent-core/pkg/tsbase62/tsbase62.go:62-112 | larger digits have larger characters, and decoding a character inverts encoding a digit |
| Base62.AlphabetLists | agent-core/pkg/tsbase62/tsbase62.go:23-61 | the alphabet lists the characters of the digits in order |
| Base62.BuildDecodeTable | agent-core/pkg/tsbase62/tsbase62.go:51-58 | the loop fills the table so that it gives the digit of every ASCII character, or -1 |
| Base62.ElevenDigits | agent-core/pkg/tsbase62/tsbase62.go:62-86 | eleven digits are enough for every 64-bit number and ten are not |
| Base62.DecodeInvertsEncode | agent-core/pkg/tsbase62/tsbase62.go:62-112 | decoding inverts both encoders on every 64-bit number |
| Base62.EncodeInvertsDecode | agent-core/pkg/tsbase62/tsbase62.go:62-112 | an eleven-character string that decodes is the fixed-width form of its value |
| Base62.OverflowIsExact | agent-core/pkg/tsbase62/tsbase62.go:89-112 | on valid strings of 1 to 11 digits overflow is reported exactly when the number exceeds 2^64 - 1 |
| Base62.FixedOrder | agent-core/pkg/tsbase62/tsbase62.go:78-86 | fixed-width encoding is an order isomorphism to byte order |
| Base62.VariableIsNotOrdered | agent-core/pkg/tsbase62/tsbase62.go:62-75 | 62 and 2 are out of order in variable width |
| Base62.VariableOrder | agent-core/pkg/tsbase62/tsbase62.go:62-75 | variable width keeps the order of m < n exactly if both have equally many digits or m is at most the leading digits of n |
| Base62.EncodeUint64 | agent-core/pkg/tsbase62/tsbase62.go:62-75 | the loop produces the digits without leading zeros |
| Base62.EncodeFixedWidth | agent-core/pkg/tsbase62/tsbase62.go:375-385 | the loop fills the buffer from the back with the low-order digits |
| Base62.DecodeUint64 | agent-core/pkg/tsbase62/tsbase62.go:89-112 | the accumulating loop over the decode table gives the value, or the first error in the order in which the code finds it; overflow exactly beyond 2^64 - 1 |
| Base62.StrictlyIncreasing | agent-core/pkg/tsbase62/tsbase62.go:278-344 | for any clock readings, repeated and backward ones included, the ids issued by Next and NextWithTime strictly increase as byte strings |
| Base62.IssuedIDsSplit | agent-core/pkg/tsbase62/tsbase62.go:278-371 | every issued id splits into the timestamp and sequence number that made it, which are later than those before |
| Base62.AttemptOutcome | agent-core/pkg/tsbase62/tsbase62.go:322-344 | an attempt fails exactly before the epoch, or when the clock has not moved on and the sequence is used up; its id splits into the reading and 0 if the clock has moved on, else into the last timestamp and the next number |
| Base62.NextOutcome | agent-core/pkg/tsbase62/tsbase62.go:278-319 | Next passes over readings exactly while no id can be made, changing nothing, and gives what an attempt gives at the first other one |
| Base62.TimestampsFollowClock | agent-core/pkg/tsbase62/tsbase62.go:278-344 | over any run the timestamp in use is the latest of the readings that decided so far, and the ids of one timestamp are numbered without gaps |
| Base62.SplitInvertsMake | agent-core/pkg/tsbase62/tsbase62.go:348-371 | splitting inverts composing for every reachable state: the sequence part is never truncated |
| Base62.SplitExactly | agent-core/pkg/tsbase62/tsbase62.go:348-371 | a string splits into a timestamp and a number exactly if it is the id made of them, with both in range |
| Base62.Generator.NextWithTime | agent-core/pkg/tsbase62/tsbase62.go:322-344 | one attempt at one clock reading, with its errors; what ids and states it gives is said by `AttemptOutcome` |
| Base62.Generator.Next | agent-core/pkg/tsbase62/tsbase62.go:278-319 | the first of its readings that is not stuck decides, as `NextOutcome` says |
| Base62.NewGenerator | agent-core/pkg/tsbase62/tsbase62.go:250-264 | a valid generator, or the error for its configuration |

## Left out

- Payloads other than Data frames: JSON encoding is a predicate telling which payloads a frame type accepts, and such frames keep their bytes; the codec itself is not modelled.
- Contexts and cancellation appear as inputs (whether a call finds its context cancelled), timers and the rate limiter as their answers. A deadline is a flag that says whether a call can run out of time; if so it may do that at any wait.
- The watcher that marks a tunnel as broken some time after a deadline closed its stream: until then such a tunnel reports timeouts, as in the model; afterwards it would report the broken stream.
- The monitor's methods take the zero time as "now" (control_heartbeat.go:137-139, 151-154, 194-197); in the model the caller always gives a time.
- gRPC, QUIC and TLS streams are byte or message sequences that may accept any positive prefix of a write; their setup, keepalive and teardown are left out.
- Frame priorities of the QUIC control channel are passed through by the code and not modelled.
- nil receivers, nil contexts and nil tunnels, error texts, logging, metrics, diagnostics and audit records are left out.
- Buffer pooling in the gRPC tunnel: pending bytes are a value, so reuse of a pooled buffer while it is still referenced is not captured.
- Aliasing of Go maps and slices: the registry's buckets, the pool's maps and the assemblies' slots are values in fields, so sharing of an inner map or slice between objects is not captured.
- The pool's ids come with their trimmed form (`TunnelPool.ID`); that the trimming is `strings.TrimSpace` plays no part there.
- TunnelPool.InMemoryTunnelPool.Acquire: run alone, so each tunnel is seen once per call; interleavings are the subject of `PoolSteps`, where waiting and waking are separate steps.
- Refill.RefillController.RefillToTarget: the method has one worker; the interleaving of several is modelled by `Refill.Step`, that of several refills by `ConcurrentRefills.JointStep`.
- Refill.Config.Normalize: the rate limit is a real number, so Go's NaN, which the code lets through, is not covered.
- TunnelPool.InMemoryTunnelPool.constructor: takes the normalised limit and TTL; the defaults of the pool's configuration are left out.
- Heartbeat.DeadAfterSilence: states the deadline for policies whose products fit 64 bits and whose interval exceeds one nanosecond; the other policies are covered by `Heartbeat.DeadMeansDeadline`.
- Connectors, projections, the listing by scope and `FindActiveSessionByConnector` of the registry: plain tables and scans without an index.
- The validators, negotiation, ingress matching, export eligibility, health aggregation, reconcile planning, the priority queue and the session state machine: each is decided by one table or one pass over its input, without state that other operations depend on.
- User interface, desktop code and `main` packages.
