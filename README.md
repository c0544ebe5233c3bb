# CyanMycelium: protobuf pull parser and graph activation, in Dafny

This project models two sequential cores of the CyanMycelium inference
runtime and proves properties of them.

- **The Protocol Buffers pull parser `PBReader`** (BlueSteelLadyBug). It
  reads tags, base-128 varints, ZigZag-encoded signed integers,
  little-endian fixed32/fixed64 values, length-delimited strings and byte
  strings (whole or clipped to a buffer), packed repeated integers, and
  skips fields. It opens sub-readers over embedded messages. It keeps a
  bounded stack of saved positions and statuses for look-ahead.
  - `pb_wire.dfy` (module `PbWire`) holds the wire arithmetic as pure
    functions with round-trip lemmas.
  - `pb_reader.dfy` (module `PbReader`) holds one specification function
    per read (what it yields from a position in the byte stream) and the
    class `PBReader`. Its fields are the byte stream, the position, a
    `canSeek` flag, the `ReaderStatus` and an `array` of 8 snapshots with
    the active index. Every method is proved against the specification
    functions. The varint `do`/`while` loop and the packed loop are
    methods with loop invariants.
- **The graph activation model**.
  - `cm_graph.dfy` (module `CmGraph`) has the following:
    - `Link` (origin `Oini`, destination `Ofin`, tensor payload) and
      `Node` (input links `Opsc`, output links `Onsc`, operator kind),
      kept in arenas indexed by integers;
    - operator activation: `Operator::ForwardOuput`'s fan-out, which
      gives the first outgoing link the output's own buffer and later
      links clones, and stops at the first failure;
    - `UnaryOperator::Activate` and `BinaryOperator::Activate`, which
      keep the larger operand and free the smaller;
    - the `LinkCollection::Oini`/`Ofin` collectors.

    The activation context's answers and `Clone`'s results are given to
    these methods as oracle sequences.
  - `cm_engine.dfy` (module `CmEngine`) has the following:
    - the `__AreLinkReady` readiness test;
    - `InferenceSession`, the activation context. It stores payloads
      delivered on links and fires a join node once all its inputs are
      ready, inside the node's lock. It gives the completion handle when
      the outputs are complete.

    Lock operations, node activations and completion-handle operations
    go into a ghost event trace. Each locked region is one atomic step.

`wrappers.dfy` (module `Wrappers`) holds the `Option` type both cores use.

Buffers are abstract pointers (`Ptr`, with `Null` distinguished) and
nullable node/link pointers are `Ref` (`Nil` or an arena index). I/O,
allocation and the context's answers are parameters:
- the stream's bytes are a `seq<byte>`;
- `Malloc`'s answer is `mallocResult`;
- `Clone`'s answers are `clones[i]`;
- `ctx->Activate(link)`'s answers are `accepted[i]`;
- the timed wait's outcome is `acquired`.

Departures from the Protocol Buffers encoding that the model keeps as the
code has them:
- readTag masks the wire type with `0x03`. A 32-bit field's tag (wire
  type 5) is therefore read as a 64-bit field (`PbWire.Fixed32TagReadAs64Bit`).
- Signed integers (`lb_int32_t`, `lb_int64_t`) are always ZigZag-decoded
  when their wire type is varint.

## Model

| member | source | states |
|---|---|---|
| PbWire.ToInt32 | src/pb/lb_parser.cpp:228 | the lb_int32_t cast yields the unique value in [-2^31, 2^31) congruent to its argument modulo 2^32 |
| PbWire.ToInt64 | src/pb/lb_parser.cpp:160 | the lb_int64_t cast of an lb_uint64_t yields the value in [-2^63, 2^63) congruent to it modulo 2^64 |
| PbWire.Not64 | src/pb/lb_parser.cpp:160 | the bitwise not of a 64-bit value is a 64-bit value that sums with it to 2^64 - 1 |
| PbWire.VarintLength | src/pb/lb_parser.cpp:124-136 | a varint runs up to and including the first byte whose MSB is clear, every earlier byte has it set, and there is no varint exactly when every byte has it set |
| PbWire.VarintRoundTrip | src/pb/lb_parser.cpp:115-151 | decoding the standard encoding of any 64-bit value, whatever bytes follow it, yields that value and consumes exactly the encoding |
| PbWire.VarintAtMostTenBytes | src/pb/lb_parser.cpp:128-136 | every 64-bit value is encoded in at most ten bytes |
| PbWire.ZigZagDecode | src/pb/lb_parser.cpp:153-163 | _readSVarint's mapping always yields a value in the lb_int64_t range |
| PbWire.ZigZagDecodeValue | src/pb/lb_parser.cpp:160 | an odd code v means -(v/2) - 1 and an even code v means v/2 |
| PbWire.ZigZagRoundTrip | src/pb/lb_parser.cpp:153-163 | decoding inverts the encoder (n << 1) ^ (n >> 63) on every lb_int64_t |
| PbWire.ZigZagOnto | src/pb/lb_parser.cpp:153-163 | encoding inverts decoding on every lb_uint64_t, so ZigZag is a bijection between the two types |
| PbWire.LittleEndianBound | src/pb/lb_parser.cpp:180-183 | n bytes read little-endian give a value below 2^(8n) |
| PbWire.FixedRoundTrip | src/pb/lb_parser.cpp:204-211 | the n-byte little-endian encoding of any v < 2^(8n) reads back as v |
| PbWire.Fixed32Formula | src/pb/lb_parser.cpp:180-183 | the portable fixed32 branch puts byte k at bit 8k (b0 + b1·2^8 + b2·2^16 + b3·2^24) |
| PbWire.Fixed64Formula | src/pb/lb_parser.cpp:204-211 | the portable fixed64 branch puts byte k at bit 8k for k = 0..7 |
| PbWire.DecodeTag | src/pb/lb_parser.cpp:68-69 | the wire type is the tag modulo 4, so it is always in 0..3; the field number is tag >> 3 truncated to 32 bits |
| PbWire.TagRoundTrip | src/pb/lb_parser.cpp:62-73 | a tag of a varint, 64-bit or length-delimited field with a 32-bit field number reads back as that field number and wire type |
| PbWire.Fixed32TagReadAs64Bit | src/pb/lb_parser.cpp:69 | a tag of wire type 5 (32-bit) reads back as wire type 1 (64-bit) with its field number |
| PbReader.VarintAt | src/pb/lb_parser.cpp:119-151 | a successful varint read consumes at least one byte and yields a value below 2^64; a failed one has consumed the rest of the stream |
| PbReader.SVarintAt | src/pb/lb_parser.cpp:153-163 | a successful signed varint read consumes at least one byte and yields an lb_int64_t |
| PbReader.FixedAt | src/pb/lb_parser.cpp:165-215 | a fixed read succeeds only when all n bytes arrived, then ends n bytes further on with a value below 2^(8n); a failed one has consumed the rest of the stream |
| PbReader.Int32At | src/pb/lb_parser.cpp:217-240 | the int32 overload succeeds only for the varint and 32-bit wire types with a value in the lb_int32_t range; any other wire type fails without consuming a byte |
| PbReader.Int64At | src/pb/lb_parser.cpp:242-260 | the int64 overload succeeds only for the varint and 64-bit wire types with an lb_int64_t; any other wire type fails without consuming a byte |
| PbReader.UInt32At | src/pb/lb_parser.cpp:262-287 | the uint32 overload succeeds only for the varint and 32-bit wire types with a value below 2^32; any other wire type fails without consuming a byte |
| PbReader.UInt64At | src/pb/lb_parser.cpp:289-306 | the uint64 overload succeeds only for the varint and 64-bit wire types with a value below 2^64; any other wire type fails without consuming a byte |
| PbReader.IntegerAt | include/pb/lb_parser.hpp:65-68 | an integer read succeeds only for a wire type its overload accepts, with a value in the range of its C++ type; other wire types fail without consuming a byte |
| PbReader.LengthAt | src/pb/lb_parser.cpp:34-60 | readLength fails without consuming or changing the status unless the wire type is length-delimited; any failure leaves the status unchanged; a success yields the kept length or a fresh 64-bit length that it records |
| PbReader.PackedFrom | src/pb/lb_parser.cpp:18-31 | every element a packed read yields is in the range of its C++ type and the read never passes the end of the stream |
| PbReader.VarintAtEncoded | src/pb/lb_parser.cpp:115-151 | a 64-bit value encoded at any position of a stream reads back there and the read ends right after its encoding |
| PbReader.Int64VarintRoundTrip | src/pb/lb_parser.cpp:242-249 | any lb_int64_t written ZigZag-encoded reads back through the int64 overload |
| PbReader.Int32VarintRoundTrip | src/pb/lb_parser.cpp:217-230 | any lb_int32_t written ZigZag-encoded reads back through the int32 overload |
| PbReader.UInt32FixedRoundTrip | src/pb/lb_parser.cpp:277-280 | any lb_uint32_t written as fixed32 reads back through the uint32 overload, consuming 4 bytes |
| PbReader.UInt64FixedRoundTrip | src/pb/lb_parser.cpp:297-300 | any lb_uint64_t written as fixed64 reads back through the uint64 overload, consuming 8 bytes |
| PbReader.LengthKept | src/pb/lb_parser.cpp:40-43 | after a readLength with validate, the next readLength yields the same length without moving the position or changing the status |
| PbReader.LengthNotKept | src/pb/lb_parser.cpp:46-51 | after a readLength without validate, nothing is kept and the next readLength reads a fresh varint |
| PbReader.PackedUnsignedRoundTrip | src/pb/lb_parser.cpp:5-32 | a packed record of varint-encoded 64-bit values yields all of them in order and ends exactly at the end of the record |
| PbReader.DecodeVarintAt | src/pb/lb_parser.cpp:115-151 | the do/while loop that or-s 7-bit groups in at growing shifts computes exactly VarintAt: success, end position and value |
| PbReader.PBReader.constructor | include/pb/lb_parser.hpp:39-53 | a new reader has status (fieldNumber 0, PB_VARINT, depth 0, length 0, no length kept), an empty snapshot stack and eight snapshot slots |
| PbReader.PBReader.Sub | include/pb/lb_parser.hpp:132-137 | a sub-reader reads only the window [from, from + length) of the parent's input from its start, with the given depth and otherwise initial status |
| PbReader.PBReader.Depth | include/pb/lb_parser.hpp:99 | getDepth returns the lb_uint16_t depth as an lb_byte_t, its value modulo 256 |
| PbReader.PBReader.ReadVarint | src/pb/lb_parser.cpp:115-151 | the stream ends where VarintAt says and the value read is VarintAt's |
| PbReader.PBReader.ReadSVarint | src/pb/lb_parser.cpp:153-163 | the stream ends where SVarintAt says and the value read is SVarintAt's |
| PbReader.PBReader.ReadFixed | src/pb/lb_parser.cpp:165-215 | the stream ends where FixedAt says and the value read is FixedAt's |
| PbReader.PBReader.ReadInt32 | src/pb/lb_parser.cpp:217-240 | success, end position and value are Int32At's |
| PbReader.PBReader.ReadInt64 | src/pb/lb_parser.cpp:242-260 | success, end position and value are Int64At's |
| PbReader.PBReader.ReadUInt32 | src/pb/lb_parser.cpp:262-287 | success, end position and value are UInt32At's |
| PbReader.PBReader.ReadUInt64 | src/pb/lb_parser.cpp:289-306 | success, end position and value are UInt64At's |
| PbReader.PBReader.ReadInteger | src/pb/lb_parser.cpp:217-306 | the overload for each integer kind; success, end position and value are IntegerAt's |
| PbReader.PBReader.ReadValue | include/pb/lb_parser.hpp:65-68 | the public integer readValue dispatches on the current status wire type |
| PbReader.PBReader.ReadBool | src/pb/lb_parser.cpp:352-361 | a bool is any varint, true iff it is non-zero, whatever the wire type |
| PbReader.PBReader.ReadTag | src/pb/lb_parser.cpp:62-73 | a successful readTag sets the field number and wire type from the tag and nothing else; a failed one leaves the status unchanged |
| PbReader.PBReader.ReadLength | src/pb/lb_parser.cpp:34-60 | position, status and length after readLength are LengthAt's |
| PbReader.PBReader.InvalidateLengthReaded | include/pb/lb_parser.hpp:126 | only the lengthReaded flag is cleared |
| PbReader.PBReader.ReadString | src/pb/lb_parser.cpp:363-379 | a string read succeeds iff the whole record is in the stream, and yields its bytes followed by a 0 |
| PbReader.PBReader.ReadBytesValue | src/pb/lb_parser.cpp:381-390 | a byte-string read succeeds iff the whole record is in the stream, and yields exactly its bytes |
| PbReader.PBReader.ReadStringBounded | src/pb/lb_parser.cpp:429-449 | readValue_s(char *, s) copies min(length, s - 1) bytes, writes a 0 after them, leaves the rest of the buffer unchanged and seeks past the rest of the record; each way it can fail is stated |
| PbReader.PBReader.ReadBytesBounded | src/pb/lb_parser.cpp:451-472 | readValue_s(byte *, s) copies min(length, s) bytes with no terminator and seeks past the rest; each way it can fail is stated |
| PbReader.PBReader.ReadClipped | src/pb/lb_parser.cpp:438-446 | the shared tail of both readValue_s overloads: the copied prefix, the untouched rest of the buffer, and success iff every byte arrived and the seek over the remainder succeeded |
| PbReader.PBReader.ReadPacked | src/pb/lb_parser.cpp:5-32 | a packed read takes the record length, clears the kept length and yields exactly PackedFrom's elements, success and end position, up to the record's end computed as a 64-bit size_t |
| PbReader.PackedWrapsEmpty | src/pb/lb_parser.cpp:18-20 | when pos + size passes 2^64 the wrapped end lies below pos, and the packed read succeeds with no element and no byte consumed |
| PbReader.PBReader.ReadPackedElements | src/pb/lb_parser.cpp:18-31 | the element loop yields PackedFrom's elements, success and end position |
| PbReader.PBReader.Skip | src/pb/lb_parser.cpp:392-427 | skip consumes a varint, seeks 4 or 8 bytes for the fixed types, or seeks past a length-delimited record; the seeks succeed iff the stream can seek and the bytes are there; any other wire type fails with nothing changed |
| PbReader.PBReader.GetSubMessageReader | src/pb/lb_parser.cpp:103-113 | the sub-reader covers exactly the next record, one level deeper (16-bit depth); this reader stops at the record's first byte; a failed readLength yields null |
| PbReader.PBReader.Save | src/pb/lb_parser.cpp:75-83 | save pushes the current position and status, and does nothing when the stream cannot seek or eight snapshots are on the stack |
| PbReader.PBReader.Restore | src/pb/lb_parser.cpp:85-93 | restore returns to the last saved position and status and pops that snapshot, and does nothing when the stream cannot seek or the stack is empty |
| PbReader.PBReader.Unsave | src/pb/lb_parser.cpp:95-101 | unsave pops the last snapshot without moving the position |
| PbReader.PeekTag | src/pb/lb_parser.cpp:75-93 | save, readTag and restore read the next tag and leave position, status and snapshot stack exactly as they were |
| PbReader.PartialFixedReadAccepted | src/pb/lb_parser.cpp:173 | a fixed32 read with only two bytes left counts as a success as written, though not all four bytes arrived |
| PbReader.SkipGroupUninitialised | src/pb/lb_parser.cpp:396-422 | a start-group tag keeps wire type 3 through readTag and reaches the case skip does not handle |
| CmGraph.NewLink | include/cm_graph.hpp:50-55 | a new link has no origin and no destination |
| CmGraph.LinkActivate | src/cm_graph.cpp:5-8 | Link::Activate always succeeds |
| CmGraph.SetData | src/cm_graph.cpp:42 | storing a payload pointer changes that link's data and nothing else, and keeps every link's ends, type and size |
| CmGraph.ChooseOperands | src/cm_graph.cpp:115-125 | the binary operator's primary operand is never smaller than the secondary, and it is the second input only when that is strictly larger |
| CmGraph.FanoutFrom | src/cm_graph.cpp:54-67 | the clone loop writes a prefix of the outgoing links and succeeds only after writing all of them |
| CmGraph.Fanout | src/cm_graph.cpp:34-70 | forwarding writes a prefix of the outgoing links, at least the first one when there is one, and succeeds only after writing all of them |
| CmGraph.Delivered | src/cm_graph.cpp:41-62 | fan-out writes only payload data and never changes a link's ends, type or size |
| CmGraph.FanoutSucceedsIff | src/cm_graph.cpp:32-71 | forwarding succeeds iff every outgoing link accepts its activation and every clone is allocated |
| CmGraph.FanoutFromStops | src/cm_graph.cpp:54-67 | when the clone loop stops early, either the clone for the next link was null and that link was not written, or the last link written refused |
| CmGraph.DeliveredAt | src/cm_graph.cpp:41-62 | after k links were written, the first outgoing link holds the output's own buffer, written link j > 0 its clone, and every other link is unchanged |
| CmGraph.DeliveredOutside | src/cm_graph.cpp:41-62 | a link that is not among the outgoing links is untouched by the fan-out |
| CmGraph.GatheredSpec | src/cm_graph.cpp:10-31 | the collectors only append to target, never add a duplicate, add every non-null end of the scanned links and nothing else |
| CmGraph.CollectEnds | src/cm_graph.cpp:10-31 | the collector loop computes Gathered over the whole collection |
| CmGraph.CollectSkipsFirstNine | src/cm_graph.cpp:12-23 | with nine links all starting at node 0, the scan as written collects nothing while the full scan collects node 0 |
| CmGraph.TypeTagGuardNeverRejects | src/cm_graph.cpp:85-91 | the guard as written rejects no tag (not even -1); the corrected guard admits exactly the tags 0 to TDT_COUNT - 1 |
| CmGraph.MemoryManager.Free | src/cm_graph.cpp:142 | Free records the released buffer |
| CmGraph.Graph.constructor | include/cm_graph.hpp:140-152 | a well-formed set of links, nodes, name-keyed inputs and outputs and the function-table size makes a valid graph holding exactly them |
| CmGraph.Graph.Activate | src/cm_graph.cpp:151-154 | Graph::Activate always succeeds |
| CmGraph.Graph.ForwardOutput | src/cm_graph.cpp:32-71 | ForwardOuput's result and the links it leaves are those of Fanout and Delivered: the original buffer on the first link, clones on the later ones, stopping at the first failure |
| CmGraph.Graph.UnaryActivate | src/cm_graph.cpp:73-100 | with exactly one non-null input whose type tag is in the table, the input tensor is forwarded as the output and the kernel runs iff its entry is present; otherwise it fails with nothing changed |
| CmGraph.Graph.BinaryActivate | src/cm_graph.cpp:102-149 | with exactly two non-null inputs, the larger operand's data is forwarded and the smaller's buffer is freed and nulled; otherwise it fails with nothing changed and nothing freed |
| CmEngine.AreLinkReady | src/cm_engine.cpp:130-139 | the loop answers Ready: every non-null link of the collection has data, null entries are ignored and an empty collection is ready |
| CmEngine.AreEntriesReady | src/cm_engine.cpp:141-150 | the loop answers EntriesReady, the same test over a name-keyed collection |
| CmEngine.Lookup | src/cm_engine.cpp:29 | a name maps to the link of its first entry, or to null when no entry has it |
| CmEngine.Starts | src/cm_engine.cpp:49-54 | RunAsync's loop issues one activation per input, of that input's destination node, in map order |
| CmEngine.InferenceSession.constructor | src/cm_engine.cpp:16-20 | the session's model and memory manager are the ones given, and it has done nothing yet |
| CmEngine.InferenceSession.GetInput | src/cm_engine.cpp:27-39 | an unknown name yields null and changes nothing; a known one allocates data only when the link has none and yields that link |
| CmEngine.InferenceSession.GetOutput | src/cm_engine.cpp:65-73 | the named output's link, or null when no output has that name |
| CmEngine.InferenceSession.RunAsync | src/cm_engine.cpp:41-56 | nothing happens unless all inputs are ready; then the completion handle is taken once and each input's destination is activated in map order |
| CmEngine.InferenceSession.Join | src/cm_engine.cpp:58-63 | Join waits on the completion handle, gives it back, and returns 0 whether or not the wait timed out |
| CmEngine.InferenceSession.Reset | src/cm_engine.cpp:75-79 | the state becomes SESSION_IDLE and the session itself is returned |
| CmEngine.InferenceSession.ActivateNode | src/cm_engine.cpp:125-128 | Activate(NodePtr) always refuses |
| CmEngine.InferenceSession.ActivateLink | src/cm_engine.cpp:81-123 | a null link or null data is refused with nothing changed; otherwise the data is stored and the reaction follows: a join node is fired iff it is ready, inside one take and one give of its lock; a single-input node is fired; a terminal link gives the handle when there is one and the outputs are complete |
| CmEngine.ReadyExactlyAtLast | src/cm_engine.cpp:130-139 | with every link of a collection empty and each delivered once, the collection becomes ready at the last delivery and not before |
| CmEngine.JoinFiresAtLastInput | src/cm_engine.cpp:92-104 | fan-in: of the deliveries to a join node's inputs, each takes and gives the node's lock once and only the last activates the node |
| CmEngine.CompletionAtLastOutput | src/cm_engine.cpp:112-121 | with several outputs, the completion handle is given at the last output delivery only |
| CmEngine.SessionAnswers | src/cm_engine.cpp:83-86 | the session refuses every activation that carries no data |
| CmEngine.ForwardThroughSessionFails | src/cm_graph.cpp:39-52 | forwarding an operator's output through an InferenceSession fails at the first outgoing link, having written only that link and made no clone |

## Left out

- Floating-point reads (`_readValue` for `lb_float_t`/`lb_double_t` and the float/double `readPacked`) are left out, because they convert to floating point.
- The little-endian fast path that reinterprets the union's bytes is left out. The portable shift-and-or branch is modelled, which gives the same value on a little-endian machine.
- The input stream (`IInputStream`, `StreamView`) is not part of this model. It is abstracted as a byte sequence, a position and a `canSeek` flag. A read of n bytes hands over min(n, remaining) bytes. A seek succeeds iff the stream can seek and the target is within it.
- PbReader.DecodeVarintAt: a varint longer than ten bytes shifts a group by 64 or more, which is undefined in C++. The model lets those groups contribute nothing, that is, their weight modulo 2^64.
- The `(int)` casts of lengths in `readValue`, `readValue_s` and `skip` are not modelled. Lengths are unbounded naturals, so a length of 2^31 or more is not read back negative.
- PbReader.PBReader.ReadPacked: `size_t` is taken 64 bits wide, as on a 64-bit host. On a 32-bit target the end of the record would wrap at 2^32, which the model does not capture.
- PbReader.PBReader.GetSubMessageReader: the window's `size_t from, length` are taken unbounded. A window whose end passes the width of `size_t` is not modelled, because the `StreamView` that clips it is not part of this model.
- PbReader.PBReader.ReadString and PbReader.PBReader.ReadBytesValue return the record's bytes as a new sequence. The caller's buffer is not modelled: neither the bytes already copied into it when a short read fails, nor the unbounded write of `size + 1` bytes (`size` for byte strings) on success. The bounded `readValue_s` overloads are modelled over the caller's `array`.
- PbReader.PBReader.ReadStringBounded requires a buffer of at least one byte. With `s == 0` the source computes a size of -1.
- PbReader.PBReader.GetSubMessageReader: the heap allocation and the `_parent` pointer are not modelled. The sub-reader's window is a copy of the parent's bytes with its own position, and the parent stays at the record's start, as in the source.
- The trivial getters `getFieldNumber`, `getWireType`, `getInput`, `getPosition`, `getSize` and `getRemainingBytes` are plain field reads (`status.fieldNumber`, `status.wireType`, `pos`, `|input|`, `PBReader.RemainingBytes`). They have no contract.
- Thread safety is not modelled. Mutex and completion-handle semaphores become events in a ghost trace, and each lock-guarded region is one atomic step.
- The engine's worker pool, event queue and start/stop are not part of this model. Neither is `cm_engine.hpp`, which holds the session's `State`, `_completionHandle` and `SESSION_IDLE`. Whether the handle exists is the `hasHandle` parameter, and the initial state is a constructor argument.
- Memory manager internals are oracles. `Malloc`'s answer is `mallocResult` and `Clone`'s answers are `clones`. Free only records what it released. Buffer contents and the copy `Clone` makes are not modelled.
- The numeric kernels behind the function tables are not modelled. A table entry is present or null, and a run is recorded as a `KernelRun`. The operators in `cm_lstm.hpp` and `cm_mean.hpp` carry no logic to model.
- Collections (`Collection`, `KeyValueCollection`) are not part of this model. They are sequences. A name is taken to map to its first entry (`CmEngine.Lookup`).
- CmGraph.Graph.Valid requires an operator's outgoing links to differ from its own input links (no self-loop). The source does not check this, and without it the freed operand could be overwritten by the fan-out.
- CmEngine.InferenceSession.RunAsync requires every named input to be non-null, and the completion handle to exist when the inputs are ready. The source dereferences both unconditionally.
- CmEngine.InferenceSession.Join requires the completion handle to exist, which the source dereferences. Join's result does not tell a completed wait from a timed-out one: the code always returns 0, and the model follows the code.
- CmEngine.InferenceSession.Reset: only `State` is reset, as in the code. Link payloads are not cleared.
- `Node::GetLock` returns the address of the node's embedded mutex, which is never null. The model names the lock by the node's index, so the `if (lock)` tests always hold.
- The result of the session's `Activate(nextNode)` is ignored by `Activate(link, data)`, as in the code; activations are only recorded.

## Findings

| source | as written | input that shows it | evidently intended | confidence | as-written member | corrected member |
|---|---|---|---|---|---|---|
| src/pb/lb_parser.cpp:173 | the byte count from the stream is stored in a `bool`, so a fixed32 (and, at line 197, fixed64) read of 1 to 3 (7) bytes counts as success and yields a value partly made of uninitialised bytes | a stream [0x01, 0x02] read as fixed32 from position 0 | success only when all 4 (8) bytes arrived | not executed | PbReader.PartialFixedReadAccepted | PbReader.FixedAt |
| src/pb/lb_parser.cpp:396-422 | skip's switch has no case for wire types other than 0, 1, 2 and 5, so `size` is used uninitialised in the seek | the start-group tag of field 1 (byte 0x0B), then skip | fail and change nothing for an unknown wire type | not executed | PbReader.SkipGroupUninitialised | PbReader.PBReader.Skip |
| src/cm_graph.cpp:85-91 | the type-tag guard `i < 0 && i >= TDT_COUNT` can never hold, so a bad tag indexes the unary function table out of bounds | an input payload whose type tag is -1 | reject tags outside 0 to TDT_COUNT - 1, the two tests joined by or | not executed | CmGraph.TypeTagGuardNeverRejects | CmGraph.Graph.UnaryActivate |
| src/cm_graph.cpp:128-134 | the same guard in the binary operator never rejects | a primary operand whose type tag is TDT_COUNT | reject tags outside 0 to TDT_COUNT - 1 | not executed | CmGraph.TypeTagGuardNeverRejects | CmGraph.Graph.BinaryActivate |
| src/cm_graph.cpp:12-23 | `Oini`/`Ofin` scan from index 9 until `i == _count`: the first nine links are skipped, and a shorter collection is read past its end | nine links all starting at node 0: nothing is collected | scan from index 0 | not executed | CmGraph.CollectSkipsFirstNine | CmGraph.CollectEnds |
