# Verification of QMSP

A Dafny model of the core of QMSP, a chat protocol over QUIC, with proofs about it.
`dafny verify dfyconfig.toml` checks everything.

- **The wire codec.** Byte reversal, the logarithmic and the direct variable-length integer,
  message headers whose field widths stand in a bit-packed stub byte, frames of types 0x00,
  0x02 and 0x03, and whole messages. `PackMessage` adds up sizes in one pass and writes through
  a moving place in a second one; the parser moves its cursor by the minimal size of each value
  it read and stops by comparing the end of the last frame with the byte count. The main results
  are exact: for which headers, which frame lists and which messages unpacking undoes packing, and
  for which received bytes packing undoes unpacking.
  The integer codec is also proved to agree with the independent one in `quic_var_int.h`.
- **The connection kernel.** A machine of fifteen states over global variables, driven by eleven
  events in any order. Each event function is proved to do one step of a table, and the table to be
  the only one that obeys a second set of laws, told by target state and by variable; the results are
  invariants and histories of every run.
- **Three cores of the vendored MsQuic headers.** The intrusive circular list (every run of
  operations over any number of lists refines the same operations on sequences), the memory pool
  (all interleavings of any number of threads, one access to shared memory at a time, with the
  exact bound on its depth), and the tick conversion of the Windows kernel (for which inputs it is
  exact, and for which frequencies it is exact for every input).

| file | content |
|---|---|
| `Bytes.dfy`, `ByteSwap.dfy` | machine integers, bytes in memory, byte reversal |
| `VarInt.dfy`, `QuicVarInt.dfy` | the two integers; the independent codec |
| `Messages.dfy`, `Frames.dfy`, `FrameLists.dfy`, `MessageReader.dfy` | headers, frames, lists of frames, messages |
| `Repack.dfy` | which received bytes are written again |
| `Kernel.dfy`, `KernelRuns.dfy`, `KernelLaws.dfy`, `KernelHistories.dfy` | the kernel's code and step table; invariants and loads; the table read by target state and variable; what a run tells of its events |
| `Lists.dfy`, `ListRuns.dfy`, `ListOrder.dfy` | list operations in place; runs over several lists; queues and stacks |
| `Pool.dfy`, `PoolRuns.dfy`, `PoolLimit.dfy`, `PoolCode.dfy` | the pool machine and its invariant; what every run keeps; the bound is reached; the code of the functions |
| `Ticks.dfy`, `Divisors.dfy`, `TickFrequencies.dfy` | tick conversion; common divisors; which frequencies it is exact for |

## How the code is modelled

- Integers are natural numbers with the source's width as a bound; shifts are multiplications and
  divisions by powers of two, truncation is written out. A bitwise or is `BitOr`, proved to be
  addition where no bit is shared.
- Writers change an `array` in place and say which part stayed as it was. Readers take a `seq` of
  bytes and an offset, and require exactly that every byte the source reads is there. Header arrays
  and message buffers have the length the source computes, a packed header has `HeadLen` bytes, and
  reallocating it gives a new array that begins with them.
- The host is little-endian except where a `ByteOrder` is a parameter; `EndiannessIndependence` and the
  packers then cover both.
- A serializer that returns null for a source ID of 2^62 or more returns a null array here.
- In the kernel `KickReason` and `kickReason` are one variable. `protocolVersion`,
  `supportedAltVersions` and `PSendAtOnceLimit` are parameters, and so is whether `char`, the type
  of the header that `sentMessage` shifts, is signed. Event parameters the code never
  reads (chat ID, message number, the user of a permission change) are left out, and a received
  message is the sequence of its frame types.
- A run of the kernel, the pool or the lists is a sequence of events, moves or operations; statements
  quantify over all of them, so a caller who decides each one after seeing the last is covered.
- In the pool a thread makes one access to shared memory at a time. The word that is first an
  owner and then a link is a union; a thread that reads the wrong one could not move on, which is
  proved never to happen. Clients free only blocks they hold. Each block the system hands out has an
  identity of its own. The machine treats `CxPlatPoolAlloc` and `CxPlatPoolAllocUninitialized` alike:
  they differ only in zeroing memory that belongs to the caller, which `PoolCode` shows.
- The parser stores the text of a 0x02 frame without its terminator, and the packer looks for one: it
  can be given an unpacked frame as it stands exactly when that is not a 0x02 frame (`ParsedReadable`).
  The results about repacking are for a caller who puts the terminator back (`Ready`), and
  `UnpackedAsItStands` is for one who does not.

## Where the code does less than it seems to

- A 0x02 frame that is not the last leaves its terminator unread, and the parser takes it for the
  type of the next frame. The list still comes back exactly when everything behind it is all-zero
  transit metadata (`FrameListExact`). A message whose only frame has no text has two bytes of
  frames, and the parser returns none.
- Received bytes are not always written again: integers that are longer than needed are shortened,
  a direct integer whose first byte is zero is rescaled, and behind a 0x02 frame only its terminator
  and all-zero transit metadata survive (`MessageRepackedIff`).
- A stub length that is not the size of its number rescales the number by a power of 256
  (`DirAtAnyLength`); a header comes back exactly when this does not happen (`HeaderRoundTripIff`).
- A source ID in more bytes than it needs is read whole, but the cursor moves past it by its minimal
  size: message number and frames are read that much too early (`NumberReadEarly`, `FramesReadEarly`).
- `wantsToChangePermissions` always denies, because an `else` is missing, and no event leaves either
  change state (`ChangeStatesAbsorb`, `ChangeVerdict`). In a new process the permissions are 255, so a user
  change that comes before the first login is approved (`ApprovedBeforeLogin`).
- Where `char` is signed, `sentMessage` recognizes no header: no session ever gets past its options, or
  past the alert that its version differs (`SignedRuns`); where it is unsigned there is one that does
  (`OptionsPassedIff`).
- The counter of a load is not reset for the load that follows option negotiation: where `char` is
  unsigned this load ends of itself exactly when the counter stands below the limit before it
  (`OptionsLoadEndsIff`), and then after as many messages as are missing to the limit (`OptionsLoadBounded`). In a new process the counter
  starts at the limit, so the first load goes on until it is told that there are no more messages or the
  32-bit counter overflows (`OptionsLoadUnbounded`, `FirstLoadIsUnbounded`). A load that follows a
  received load frame is bounded (`BoundedLoad`).
- Assembly of a post never completes: the counting is commented out (`NothingAmassed`), and once a post is
  admitted only a change request leads out of REQUEST_RETRANSMIT and AMASS_POST (`PostAdmitted`).
- The pool's depth is tested without the lock and can pass the maximum, by at most the number of
  threads less one (`DepthBoundIsExact`). If maximum and threads together pass 2^16 and the maximum is
  not zero, the 16-bit depth can wrap around: it is then no longer the length of the list
  (`DepthIsLengthIff`), and a thread that prunes a list of 2^16 blocks fails the assertion that the depth
  is above zero, which release builds check too (`AssertionsHoldIff`).
- Each tick conversion is exact for every input whose result fits exactly when the frequency satisfies
  freq + 10^6 - gcd(freq, 10^6) <= 2^32 (`ConversionsExactIff`). This holds up to 2^32 - 999999, still at
  2^32 - 999998, and up to 2^32 for multiples of a million; it fails at 2^32 (`SlowFrequencies`,
  `FrequencyExamples`, `FastCounterLosesBits`).

## Model

| member | source | states |
|---|---|---|
| ByteSwap.Rev16Involution | ByteSwap.c:20-34 | reversing two bytes twice gives the number back |
| ByteSwap.Rev32Involution | ByteSwap.c:37-51 | the same for four bytes, through the two-byte reversal |
| ByteSwap.Rev64Involution | ByteSwap.c:54-68 | the same for eight bytes, through the four-byte reversal |
| ByteSwap.Rev16Image | ByteSwap.c:20-34 | the little-endian image of a reversed number is the big-endian image of the number |
| ByteSwap.Rev32Image | ByteSwap.c:37-51 | the same for four bytes |
| ByteSwap.Rev64Image | ByteSwap.c:54-68 | the same for eight bytes |
| ByteSwap.EndianProbe.IsLittleEndian | ByteSwap.c:7-17 | the cached answer is the host's byte order, on the first call and on every later one |
| ByteSwap.EndiannessIndependence | VariableLengthInt.c:97-99 | after the conditional reversal, memory holds the bytes most significant first on every host |
| VarInt.LVISizeLeast | VariableLengthInt.c:38-49 | the size is the least of 1, 2, 4 and 8 bytes that leaves two bits free |
| VarInt.DVISizeLeast | VariableLengthInt.c:52-63 | the size is the number of significant bytes, and one for zero |
| VarInt.ReachesFront | VariableLengthInt.c:93-95 | whole-byte shifts of a tagged value reach the top byte after exactly 8 - size of them, and drop nothing |
| VarInt.ShiftToFront | VariableLengthInt.c:77-95 | the loop ends with (tag + value) * 256^(8 - size) |
| VarInt.PackLogVarInt | VariableLengthInt.c:66-102 | on every host memory holds that word most significant byte first; zeros for zero and for values of 2^62 and more |
| VarInt.LogFront | VariableLengthInt.c:66-102 | the first size bytes of the packed word are the encoding |
| VarInt.LogBytes | Messages.c:80-89 | packing and copying the minimal number of bytes gives the encoding, on every host |
| VarInt.UnpackLogVarInt | VariableLengthInt.c:5-21 | the loop computes the decoded value of the bytes at the offset and never overflows |
| VarInt.DecodeLog | VariableLengthInt.c:5-21 | a decoded value is below 2^62 |
| VarInt.LogRoundTrip | VariableLengthInt.c:66-102 | decoding an encoding gives the value and its size, whatever bytes follow |
| VarInt.LogPrefixFree | VariableLengthInt.c:66-102 | no encoding is a prefix of the encoding of another value |
| VarInt.EncodingUnique | VariableLengthInt.c:5-21 | two byte strings of one size and one decoded value are equal |
| VarInt.MinimalAdvance | VariableLengthInt.c:38-49 | the minimal size of a decoded value is at most the size read, and equal exactly when the bytes are the packer's |
| VarInt.PackDirVarInt | VariableLengthInt.c:105-116 | on every host memory holds the value shifted to the front, most significant byte first |
| VarInt.UnpackDirVarInt | VariableLengthInt.c:25-35 | the loop computes the big-endian number of the bytes, modulo 2^32, and reads one byte for a length below one |
| VarInt.DirFront | VariableLengthInt.c:105-116 | the first L bytes of the packed word are the L bytes of the rescaled value |
| VarInt.DirAtAnyLength | VariableLengthInt.c:25-35 | reading the first L bytes of the packed word gives v * 256^(L - s) for L >= s and floor(v / 256^(s - L)) otherwise |
| VarInt.DirRoundTripIff | VariableLengthInt.c:105-116 | the value is read back from the first L bytes of the packed word exactly when it is zero or L is its own size |
| VarInt.PackThenUnpackDir | VariableLengthInt.c:25-116 | packing on any host and unpacking the first L bytes, run one after the other, rescale the value, and give it back exactly when it is zero or L is its own size |
| QuicVarInt.QuicBytesAreEncodeLog | OriginalLinuxCode/msquiclib/include/quic_var_int.h:62-80 | both libraries write the same bytes for every value below 2^62 |
| QuicVarInt.QuicVarIntEncode | OriginalLinuxCode/msquiclib/include/quic_var_int.h:53-80 | writes the encoding at its place, returns the place behind it and leaves the rest of the buffer unchanged |
| QuicVarInt.SwappedLoad32 | OriginalLinuxCode/msquiclib/include/quic_var_int.h:137-139 | loading four bytes and swapping them reads them most significant first |
| QuicVarInt.SwappedLoad64 | OriginalLinuxCode/msquiclib/include/quic_var_int.h:146-148 | the same for eight bytes |
| QuicVarInt.MaskedWord | OriginalLinuxCode/msquiclib/include/quic_var_int.h:139-148 | masking two bits out of the whole word masks them out of its first byte |
| QuicVarInt.DecodersAgree | OriginalLinuxCode/msquiclib/include/quic_var_int.h:107-152 | the decoder succeeds exactly when a whole integer is there, and then both decoders read the same value |
| QuicVarInt.QuicVarIntDecode | OriginalLinuxCode/msquiclib/include/quic_var_int.h:107-152 | succeeds exactly when a whole integer is there, with the value and the offset behind it; otherwise the offset stays |
| QuicVarInt.ParserAdvance | VariableLengthInt.c:5-49 | the message parser's advance is at most the encoded length, and equals it exactly for minimal encodings |
| Messages.SerializeMessageStub | Messages.c:32-57 | the loop over the bit fields of a little-endian stub puts the first field into the highest bit |
| Messages.StubRoundTrip | Messages.c:143-153 | rebuilding a stub byte gives the stub |
| Messages.StubByteRoundTrip | Messages.c:143-153 | every byte is the stub byte of what is rebuilt from it |
| Messages.StubFields | Messages.c:32-57 | the quotients and remainders of the stub byte at which each field stands |
| Messages.SizeIsBytesWritten | Messages.c:6-29 | the size functions give the bytes written, and zero exactly when the source ID is too large |
| Messages.DirBytesOf | Messages.c:82-90 | the copied front of a packed direct integer is its rescaled value at the stated length |
| Messages.SerializeDataMessageHeader | Messages.c:60-93 | null exactly for a source ID of 2^62 or more; otherwise exactly the header's bytes in a new buffer |
| Messages.SerializeControlMessageHeader | Messages.c:96-135 | the same, with the version in four bytes |
| Messages.SwappedVersion | Messages.c:122-129 | the version's bytes are written most significant first |
| Messages.RebuildDataMessage | Messages.c:156-176 | computes the rebuilt header, reading only bytes that are there |
| Messages.RebuildControlMessage | Messages.c:179-208 | the same for control headers |
| Messages.UnpackFourBytes | Messages.c:189-196 | four shifts and additions read a big-endian number |
| Messages.Pieces | Messages.c:156-208 | each field of a serialized header is found where the rebuilding cursor looks for it |
| Messages.HeaderRebuilt | Messages.c:156-208 | for any stub, the rebuilt header is the original with its two direct integers rescaled to the stated lengths |
| Messages.HeaderRoundTripIff | Messages.c:60-208 | a header comes back exactly when chat ID and message number are each zero or of the stated length |
| Messages.ConstructedHeaders | Messages.c:211-241 | which headers the construct functions build, and that they always come back |
| Messages.ConstructedControl | Messages.c:226-241 | a control header has the arguments as fields, first three bits 4 plus its type (for types 0 to 3, and congruent to it modulo 4 for any), an odd stub byte exactly with data, and the sizes of its two direct integers as lengths |
| Messages.ConstructedData | Messages.c:211-224 | a data header has the arguments as fields, first three bits zero, an even stub byte, and the sizes of its two direct integers as lengths |
| Messages.NumberReadEarly | Messages.c:156-208 | with a source ID in more bytes than minimal the source ID is right, and the message number is read too early by the excess |
| Frames.CountUntilTerminator | Frames.c:7-19 | the place of the first zero byte |
| Frames.GetSerializedSizeOfTMD | Frames.c:231-240 | the number of bytes of the serialized frame |
| Frames.GetSerializedSizeOfPTF | Frames.c:266-283 | the same, counting a terminator for type 0x02 only; the sum fits in 64 bits |
| Frames.GetSerializedSizeOfFrame | Frames.c:291-331 | the same for the types 0x00, 0x02 and 0x03 |
| Frames.SerializeTMDInto | Frames.c:410-446 | the frame fills exactly its slice of the buffer, all other bytes are unchanged |
| Frames.SerializePTFInto | Frames.c:512-549 | the same for plaintext |
| Frames.SerializeFrameInto | Frames.c:552-585 | the same by type |
| Frames.UnpackTransitMetadata | Frames.c:22-56 | the fields and the last byte of the frame, read with minimal advances |
| Frames.UnpackID | Frames.c:36-47 | the four bytes of the post transit ID, most significant first |
| Frames.GivenLength | Frames.c:138-142 | where the text of a 0x03 frame stands and how long it is |
| Frames.CountedLength | Frames.c:143-146 | the same for a 0x02 frame, up to the first zero byte |
| Frames.UnpackPlaintext | Frames.c:122-159 | type, length and text; the last byte excludes the terminator of a 0x02 frame |
| Frames.UnpackFrame | Frames.c:172-219 | calls the unpacker of the type found, and makes progress |
| Frames.Places | Frames.c:162-228 | for any parser of single frames, where each frame of a parsed list starts and ends; two bytes are there exactly where a frame starts |
| Frames.ExtractLoop | Frames.c:162-228 | the loop with the +2 test unpacks exactly the frames at those places, one in each iteration, and stops behind the last |
| Frames.ExtractFrames | Frames.c:162-228 | for every list of bytes the parser can read, the loop ends after exactly one iteration for each frame and gives the frames of the recursive definition |
| FrameLists.ParseTMDInverts | Frames.c:22-56 | parsing a serialized metadata frame, whatever follows, gives it back and consumes all of it |
| FrameLists.ParseLengthInverts | Frames.c:122-159 | the same for type 0x03 |
| FrameLists.ParseTerminatedInverts | Frames.c:122-159 | for type 0x02 the text comes back and exactly the terminator stays unread |
| FrameLists.ParseInverts | Frames.c:172-219 | parsing the bytes of any frame, whatever follows, gives that frame and consumes them, but for the terminator of a 0x02 frame |
| FrameLists.ShiftedZero | Frames.c:22-56 | all-zero metadata behind an unread terminator is read as itself |
| FrameLists.ShiftedOther | Frames.c:162-228 | any other frame behind an unread terminator is read as a different frame |
| FrameLists.AfterTerminator | Frames.c:162-228 | the frames behind an unread terminator come back exactly when all are all-zero metadata |
| FrameLists.RestExact | Frames.c:162-228 | without the first test, a list comes back exactly when only all-zero metadata follows a 0x02 frame |
| FrameLists.ShortLists | Frames.c:162-228 | the only non-empty list the first test stops is a single frame without text |
| FrameLists.FrameListExact | Frames.c:162-228 | exactly which lists of frames the parser gives back, lengths of 0x02 frames normalised |
| FrameLists.FrameListInversion | Frames.c:162-228 | every list of at least three bytes whose 0x02 frame, if any, is the last comes back in order |
| MessageReader.TotalLength | OriginalLinuxCode/MessageReader.c:19-24 | the first loop computes header length plus all serialized frames |
| MessageReader.WriteFrames | OriginalLinuxCode/MessageReader.c:29-36 | the second loop ends at the end of the buffer; header and earlier frames stay unchanged |
| MessageReader.PackMessage | OriginalLinuxCode/MessageReader.c:12-37 | a new buffer with the header and the serialized frames, and nothing else |
| MessageReader.UnpackMessage | OriginalLinuxCode/MessageReader.c:40-66 | dispatches on the class bit and extracts the frames behind the header |
| MessageReader.UnpackedParts | OriginalLinuxCode/MessageReader.c:40-66 | unpacking a packed message splits it where the header ends |
| MessageReader.MessageExact | OriginalLinuxCode/MessageReader.c:12-66 | a message comes back exactly when its header and its frame list do |
| MessageReader.PackThenUnpack | OriginalLinuxCode/MessagePackTest.c:48-58 | serialize, pack and unpack, run one after the other, give back every constructed header and every list whose 0x02 frame is the last |
| MessageReader.FramesReadEarly | OriginalLinuxCode/MessageReader.c:40-66 | behind such a header the frames are read too early by the same excess |
| Repack.MinimalFront | VariableLengthInt.c:5-102 | an integer that was read is written as the same bytes exactly when its size is the minimal one |
| Repack.FrameRepacked | Frames.c:172-219 | a parsed frame, a 0x02 frame with its terminator put back, is written as the bytes it was read from, but for that terminator, exactly when its integers are minimal |
| Repack.ParsedReadable | Frames.c:122-159 | the packer can be given a parsed frame as it stands exactly when it is not a 0x02 frame, whose terminator the parser does not store |
| Repack.TerminatorRepacked | Frames.c:162-228 | with the terminators of later 0x02 frames put back, what stands behind the text of a 0x02 frame is written again exactly when it is a terminator and all-zero metadata: zeros only, one more than a multiple of seven |
| Repack.FramesRepackedIff | Frames.c:162-228 | with the terminators of 0x02 frames put back, exactly which received frame bytes are written again: minimal integers, nothing left over, and a 0x02 frame last but for all-zero metadata |
| Repack.DirRepacked | VariableLengthInt.c:25-116 | a direct integer that was read is written as the same bytes exactly when it is zero or its size is the number of bytes read |
| Repack.HeaderRepacked | Messages.c:60-208 | a rebuilt header is written as the bytes it was read from exactly when its source ID is minimal and its two direct integers are zero or of the stated length |
| Repack.MessageRepackedIff | OriginalLinuxCode/MessageReader.c:12-66 | with the terminators of 0x02 frames put back, an unpacked message is packed to the bytes it came from exactly when its header and its frames are such |
| Repack.UnpackedAsItStands | OriginalLinuxCode/MessageReader.c:12-66 | the frames of an unpacked message can be packed as they stand exactly when none is a 0x02 frame, and then the message is packed to the bytes it came from exactly when header and frames are such |
| Repack.UnpackThenPack | OriginalLinuxCode/MessageReader.c:12-66 | unpacking, putting the terminators back, serializing the header and packing, run one after the other, write the bytes that were unpacked exactly in those cases |
| Kernel.ProtocolKernel.constructor | OriginalLinuxCode/QMSPkernel.c:5-24 | the initial globals are those of the empty run |
| Kernel.ProtocolKernel.ReceivedVersionNegotiationResponse | OriginalLinuxCode/QMSPkernel.c:26-42 | the event is one step of the table |
| Kernel.ProtocolKernel.ReceivedMessage | OriginalLinuxCode/QMSPkernel.c:44-132 | all its cascading through several states is one step of the table |
| Kernel.ProtocolKernel.ReceivedWhileJoining | OriginalLinuxCode/QMSPkernel.c:45-63 | login and version check |
| Kernel.ProtocolKernel.ReceivedInSession | OriginalLinuxCode/QMSPkernel.c:69-131 | requests, permission checks and amassing |
| Kernel.ProtocolKernel.LogIn | OriginalLinuxCode/QMSPkernel.c:49-57 | the loop opens a session exactly when there is a login frame |
| Kernel.ProtocolKernel.ReceivedWhileIdle | OriginalLinuxCode/QMSPkernel.c:69-98 | what the loops over frame types ask for |
| Kernel.ProtocolKernel.CheckPermissions | OriginalLinuxCode/QMSPkernel.c:102-120 | reads and posts need bits 2 and 4 |
| Kernel.ProtocolKernel.SentMessage | OriginalLinuxCode/QMSPkernel.c:134-164 | the event is one step of the table, whether `char` is signed or not |
| Kernel.ProtocolKernel.GivePermissions | OriginalLinuxCode/QMSPkernel.c:166-181 | the event is one step of the table |
| Kernel.ProtocolKernel.NoStoredPermissions | OriginalLinuxCode/QMSPkernel.c:183-191 | the event is one step of the table |
| Kernel.ProtocolKernel.OptionsError | OriginalLinuxCode/QMSPkernel.c:193-199 | the event is one step of the table |
| Kernel.ProtocolKernel.WantsToChangePermissions | OriginalLinuxCode/QMSPkernel.c:201-206 | the event is one step of the table, which always denies |
| Kernel.ProtocolKernel.WantsToChangeUser | OriginalLinuxCode/QMSPkernel.c:208-223 | the event is one step of the table |
| Kernel.ProtocolKernel.AssembledPost | OriginalLinuxCode/QMSPkernel.c:225-229 | the event is one step of the table |
| Kernel.ProtocolKernel.GiveUpConnection | OriginalLinuxCode/QMSPkernel.c:231-237 | the event is one step of the table |
| Kernel.ProtocolKernel.ImaginaryChatAccess | OriginalLinuxCode/QMSPkernel.c:239-244 | the event is one step of the table |
| KernelRuns.StepKeepsInvariant | OriginalLinuxCode/QMSPkernel.c:26-244 | every event keeps the invariant in every state |
| KernelRuns.InvariantOfAllRuns | OriginalLinuxCode/QMSPkernel.c:26-244 | after every run: joined states have bit 1, loads bit 2, posts bit 4, approval bit 32 or 64; the check states and ASSEMBLE_POST are never states between calls; joining implies that permissions are still to be fetched; the version in use is a supported one |
| KernelRuns.SessionHistory | OriginalLinuxCode/QMSPkernel.c:26-58 | outside CLOSED and the change states the latest exit from CLOSED was a login whose source ID is in force, and the version in use is the protocol's own until a version response is accepted after that login, and then that of the latest such response |
| KernelRuns.JoinedByPermissions | OriginalLinuxCode/QMSPkernel.c:166-191 | a session becomes joined only through permissions that have the join bit |
| KernelRuns.FreshPermissions | OriginalLinuxCode/QMSPkernel.c:166-191 | the byte that governs a joined session was supplied, or defaulted to 231, after that session's login and has been constant since |
| KernelRuns.ChangeStatesAbsorb | OriginalLinuxCode/QMSPkernel.c:201-223 | no event leaves the two change states, or changes any other variable in them |
| KernelRuns.ApprovalHistory | OriginalLinuxCode/QMSPkernel.c:201-223 | an approval answers the latest change request, a user change, by the bit for that user |
| KernelRuns.SignedRuns | OriginalLinuxCode/QMSPkernel.c:134-164 | where `char` is signed every run stays in CLOSED, CHECK_JOIN_PERM, VERSION_NEGOTIATE_ALERT, NEGOTIATE_OPTIONS and the two change states |
| KernelRuns.OptionsPassedIff | OriginalLinuxCode/QMSPkernel.c:134-164 | a session gets past its options in some run exactly when `char` is unsigned |
| KernelRuns.LoadContinues | OriginalLinuxCode/QMSPkernel.c:153-158 | a load goes on through every event but a change request and counts exactly the sends |
| KernelRuns.LoadEnds | OriginalLinuxCode/QMSPkernel.c:153-158 | a load ends in IDLE with the send that reaches the limit or says it is the last |
| KernelRuns.BoundedLoad | OriginalLinuxCode/QMSPkernel.c:84-158 | a received load frame starts a load of exactly min(limit, first send without more messages) sends, whatever other events but change requests interleave |
| KernelRuns.LoadIsOn | OriginalLinuxCode/QMSPkernel.c:153-158 | a load is on while fewer messages were sent than were missing to the limit and none said it was the last |
| KernelRuns.LoadIsOver | OriginalLinuxCode/QMSPkernel.c:153-158 | it is over, at most at the limit, right after the send that changes this |
| KernelRuns.OptionsLoadBounded | OriginalLinuxCode/QMSPkernel.c:140-158 | when the counter stands below the limit, the load after option negotiation ends with the message that brings it to the limit or says it is the last |
| KernelRuns.OptionsLoadUnbounded | OriginalLinuxCode/QMSPkernel.c:140-158 | from the limit on, no number of messages ends that load as long as the 32-bit counter does not overflow |
| KernelRuns.OptionsLoadEndsIff | OriginalLinuxCode/QMSPkernel.c:140-158 | with reading allowed, that load ends of itself after some number of messages exactly when `char` is unsigned and the counter stands below the limit before it |
| KernelRuns.FirstLoadIsUnbounded | OriginalLinuxCode/QMSPkernel.c:22-158 | in a new process, where `char` is unsigned, the load after option negotiation goes on for every number of messages that the 32-bit counter can count |
| KernelRuns.FirstLoadInSource | OriginalLinuxCode/QMSPkernel.c:21-22 | with the source's own limit of 50 it is still on after more than two thousand million messages |
| KernelLaws.EntersIff | OriginalLinuxCode/QMSPkernel.c:26-244 | in every state that satisfies the invariant, which events lead into each state, told by target state |
| KernelLaws.StepLawfulIff | OriginalLinuxCode/QMSPkernel.c:26-244 | each step is the only one that obeys the laws by target state and by variable |
| KernelHistories.NothingBeforeLogin | OriginalLinuxCode/QMSPkernel.c:5-58 | in a new process nothing but a login or a change request changes any variable |
| KernelHistories.ApprovedBeforeLogin | OriginalLinuxCode/QMSPkernel.c:208-223 | a user change before the first login is approved |
| KernelHistories.LoginOpens | OriginalLinuxCode/QMSPkernel.c:44-63 | apart from change requests only a login leads out of CLOSED, to a version check, with its source ID |
| KernelHistories.AlertLeft | OriginalLinuxCode/QMSPkernel.c:134-139 | apart from change requests the version alert is left exactly by sending it, where `char` is unsigned |
| KernelHistories.AwaitLeft | OriginalLinuxCode/QMSPkernel.c:26-42 | apart from change requests the wait for a version is left exactly by a response: to CHECK_JOIN_PERM when it is supported, otherwise to CLOSED with kick reason 2 |
| KernelHistories.UnsupportedNeverJoins | OriginalLinuxCode/QMSPkernel.c:26-63 | a user who logged in with another version waits for permissions or is joined only after a response with a supported version was accepted since |
| KernelHistories.PermissionsDecide | OriginalLinuxCode/QMSPkernel.c:166-181 | after every run that waits for permissions, the given ones are in force, and the user joins exactly with bit 1, or is closed out with kick reason 3 |
| KernelHistories.DefaultsDecide | OriginalLinuxCode/QMSPkernel.c:183-191 | a user without stored permissions joins with 231 |
| KernelHistories.JoinWaits | OriginalLinuxCode/QMSPkernel.c:44-63 | what every other event does to a user who waits for permissions |
| KernelHistories.OptionsLeft | OriginalLinuxCode/QMSPkernel.c:134-199 | how option negotiation is left: by failure with kick reason 2, or by the message sent, to a load or to IDLE |
| KernelHistories.IdleAnswers | OriginalLinuxCode/QMSPkernel.c:69-131 | which received message makes an idle session log out, ask for a change, load or post, and what it changes |
| KernelHistories.RequestsAwaited | OriginalLinuxCode/QMSPkernel.c:26-244 | apart from change requests nothing changes an idle session without a message, nor one that awaits a change request |
| KernelHistories.ClosingLaw | OriginalLinuxCode/QMSPkernel.c:26-244 | an event closes a session exactly in six cases, and what kick reason each leaves |
| KernelHistories.KickHistory | OriginalLinuxCode/QMSPkernel.c:26-244 | the kick reason is that of the latest kick, and 0 before the first |
| KernelHistories.ChangeVerdict | OriginalLinuxCode/QMSPkernel.c:201-223 | in the change states the latest change request is approved exactly when it is a user change and the bit for that user is set |
| KernelHistories.ChangeAnswered | OriginalLinuxCode/QMSPkernel.c:201-223 | every change request leads into a change state, from any state, and changes no other variable |
| KernelHistories.RetransmitLaw | OriginalLinuxCode/QMSPkernel.c:124-163 | for every run without change requests from REQUEST_RETRANSMIT: AMASS_POST exactly when of the received messages and the sent retransmit requests the latest is such a request, with no other change |
| KernelHistories.PostAdmitted | OriginalLinuxCode/QMSPkernel.c:87-131 | a post received in IDLE is admitted exactly with bit 4, and then never ends without a change request |
| KernelHistories.NothingAmassed | OriginalLinuxCode/QMSPkernel.c:122-131 | no message of a post is ever counted |
| KernelHistories.PassingStates | OriginalLinuxCode/QMSPkernel.c:102-131 | what the code does in the three states that are never left standing between two calls |
| Lists.LinksInverse | OriginalLinuxCode/msquiclib/include/quic_platform.h:252-255 | in a well-formed list Flink and Blink are inverse and stay in the list |
| Lists.InitializeHead | OriginalLinuxCode/msquiclib/include/quic_platform.h:258-265 | the list is empty |
| Lists.IsEmpty | OriginalLinuxCode/msquiclib/include/quic_platform.h:267-276 | true exactly for the empty list |
| Lists.InsertHead | OriginalLinuxCode/msquiclib/include/quic_platform.h:288-301 | the links are those of the entry followed by the old items |
| Lists.InsertTail | OriginalLinuxCode/msquiclib/include/quic_platform.h:303-316 | the links are those of the old items followed by the entry |
| Lists.InsertAfter | OriginalLinuxCode/msquiclib/include/quic_platform.h:318-331 | the entry stands right behind the given one, or first when that is the head |
| Lists.RemoveHead | OriginalLinuxCode/msquiclib/include/quic_platform.h:333-345 | takes the first item; from an empty list it returns the head and changes nothing |
| Lists.EntryRemove | OriginalLinuxCode/msquiclib/include/quic_platform.h:347-359 | takes that entry out; true exactly when the list became empty |
| Lists.TakeLinks | OriginalLinuxCode/msquiclib/include/quic_platform.h:373-385 | the branch for an empty destination links the source's items around the new head |
| Lists.ChainLinks | OriginalLinuxCode/msquiclib/include/quic_platform.h:387-401 | the other branch chains both lists around the destination's head |
| Lists.MoveItems | OriginalLinuxCode/msquiclib/include/quic_platform.h:361-408 | destination becomes destination ++ source and source becomes empty |
| ListRuns.StaysApart | OriginalLinuxCode/msquiclib/include/quic_platform.h:288-408 | an allowed operation leaves no entry in two lists |
| ListRuns.InitializeHeads | OriginalLinuxCode/msquiclib/include/quic_platform.h:258-265 | any number of distinct heads start as separate empty lists |
| ListRuns.Do | OriginalLinuxCode/msquiclib/include/quic_platform.h:288-408 | one operation acts on the linked lists as on sequences, returns the same answer and leaves all other lists alone |
| ListRuns.DoAll | OriginalLinuxCode/msquiclib/include/quic_platform.h:258-408 | every run of allowed operations over any number of lists leaves links, contents and answers as the same run on plain sequences |
| ListRuns.RunsConserve | OriginalLinuxCode/msquiclib/include/quic_platform.h:288-408 | over a run no entry is lost or doubled: held before plus put in is held after plus taken out |
| ListOrder.Queue | OriginalLinuxCode/msquiclib/include/quic_platform.h:303-345 | entries inserted at the tail of an empty list are removed from its head in the same order, and other lists stay as they were |
| ListOrder.Stack | OriginalLinuxCode/msquiclib/include/quic_platform.h:288-345 | entries inserted at the head are removed in the opposite order |
| Pool.ChainUnique | OriginalLinuxCode/msquiclib/include/quic_platform.h:410-432 | the links from the head lead through one list only |
| Pool.Quiet | OriginalLinuxCode/msquiclib/include/quic_platform_posix.h:593-699 | an access that moves no block and no count keeps the invariant |
| Pool.Unlinking | OriginalLinuxCode/msquiclib/include/quic_platform.h:421-432 | moving the head past the first block finds a link there and takes exactly that block from the list into the thread's hands |
| Pool.CountingDown | OriginalLinuxCode/msquiclib/include/quic_platform_posix.h:603-607 | the decrement brings the depth back to the list's length |
| Pool.Stamping | OriginalLinuxCode/msquiclib/include/quic_platform_posix.h:618-618 | writing the owner into a block disturbs no list and hands the block to the client |
| Pool.GivingBack | OriginalLinuxCode/msquiclib/include/quic_platform_posix.h:672-672 | a block returned to the system leaves the thread's hands and is nowhere else |
| Pool.Taking | OriginalLinuxCode/msquiclib/include/quic_platform_posix.h:655-662 | a freed block goes from the clients into the thread's hands and names its owner |
| Pool.Obtaining | OriginalLinuxCode/msquiclib/include/quic_platform_posix.h:609-614 | a block new from the system is in the thread's hands only |
| Pool.Linking | OriginalLinuxCode/msquiclib/include/quic_platform.h:410-418 | writing the link into a block that is not yet on the list disturbs nothing |
| Pool.Pushing | OriginalLinuxCode/msquiclib/include/quic_platform.h:410-418 | setting the head puts exactly that block first on the list |
| Pool.CountingUp | OriginalLinuxCode/msquiclib/include/quic_platform_posix.h:674-677 | the increment brings the depth back to the list's length |
| Pool.InvStays | OriginalLinuxCode/msquiclib/include/quic_platform_posix.h:593-699 | every access by any thread keeps the invariant and does to the list what ListAfter says |
| PoolRuns.InvOfRuns | OriginalLinuxCode/msquiclib/include/quic_platform_posix.h:593-699 | the invariant holds after every interleaving of any number of threads |
| PoolRuns.BoundOfRuns | OriginalLinuxCode/msquiclib/include/quic_platform_posix.h:671-678 | as long as the depth fits in 16 bits (maximum plus threads at most 2^16, or maximum 0), it stays below maximum plus threads in every run, with the threads between test and increment added |
| PoolRuns.DepthIsLength | OriginalLinuxCode/msquiclib/include/quic_platform_posix.h:593-699 | whenever the lock is free the depth is the length of the list, as long as the depth fits in 16 bits |
| PoolRuns.DepthBound | OriginalLinuxCode/msquiclib/include/quic_platform_posix.h:671-678 | depth plus threads between test and increment is at most maximum - 1 + threads, as long as the depth fits in 16 bits; 0 for maximum 0 |
| PoolRuns.DisabledStaysEmpty | OriginalLinuxCode/msquiclib/include/quic_platform_posix.h:548-552 | a disabled pool (maximum 0) stays empty for any number of threads |
| PoolRuns.DefaultDepthBound | OriginalLinuxCode/msquiclib/include/quic_platform_posix.h:548-552 | at the default maximum of 256 that bound is 255 + threads |
| PoolRuns.AssertionsHold | OriginalLinuxCode/msquiclib/include/quic_platform_posix.h:688-692 | the assertion that the depth is above zero after a pop does not fail as long as the depth fits in 16 bits |
| PoolRuns.Conservation | OriginalLinuxCode/msquiclib/include/quic_platform_posix.h:593-699 | in every interleaving each block obtained is in exactly one of the list, the clients, one thread's hands or the system again, and no other block is anywhere |
| PoolRuns.ListExists | OriginalLinuxCode/msquiclib/include/quic_platform_posix.h:593-699 | after every run the links from the head lead through a list, so DepthIsLength and Conservation speak of something |
| PoolRuns.OnlyTheLockStops | OriginalLinuxCode/msquiclib/include/quic_platform_posix.h:593-699 | exactly when a thread cannot move on: outside, waiting for the system, or waiting for a lock whose holder can move |
| PoolLimit.LengthReached | OriginalLinuxCode/msquiclib/include/quic_platform_posix.h:655-679 | for every n up to maximum - 1 + threads there is a run that leaves n blocks on the list and all threads outside |
| PoolLimit.LimitReached | OriginalLinuxCode/msquiclib/include/quic_platform_posix.h:671-678 | for every number n of threads there is a run that leaves maximum - 1 + n blocks on the list |
| PoolLimit.DepthBoundIsExact | OriginalLinuxCode/msquiclib/include/quic_platform_posix.h:671-678 | for every maximum and number of threads, a number bounds the depth of all runs exactly when it is at least maximum - 1 + threads (0 without threads or maximum, at most 65535) |
| PoolLimit.DepthIsLengthIff | OriginalLinuxCode/msquiclib/include/quic_platform_posix.h:510-510 | for every maximum and number of threads, the 16-bit depth is the length of the list after all runs exactly when maximum plus threads is at most 2^16 or one of them is zero |
| PoolLimit.AssertionsHoldIff | OriginalLinuxCode/msquiclib/include/quic_platform_posix.h:604-692 | for every maximum and number of threads, the assertions that the depth is above zero after a pop hold in all runs exactly in the same cases |
| PoolCode.CxPlatPool.Initialize | OriginalLinuxCode/msquiclib/include/quic_platform_posix.h:561-575 | a new pool is the start of the machine, with an empty list |
| PoolCode.CxPlatPool.ListPopEntry | OriginalLinuxCode/msquiclib/include/quic_platform.h:421-432 | takes the first block of the list, or nothing from an empty one |
| PoolCode.CxPlatPool.ListPushEntry | OriginalLinuxCode/msquiclib/include/quic_platform.h:410-418 | puts the block first on the list |
| PoolCode.CxPlatPool.AllocUninitialized | OriginalLinuxCode/msquiclib/include/quic_platform_posix.h:624-651 | its accesses are moves of the machine; it returns the first block of the list, or what the system gives when the list is empty |
| PoolCode.CxPlatPool.Alloc | OriginalLinuxCode/msquiclib/include/quic_platform_posix.h:591-622 | the same, and the client's bytes of the returned block, and of no other, are zeros |
| PoolCode.CxPlatPool.Free | OriginalLinuxCode/msquiclib/include/quic_platform_posix.h:655-679 | its accesses are moves of the machine; below the maximum the block is put first on the list, otherwise it goes back to the system |
| PoolCode.CxPlatPool.Prune | OriginalLinuxCode/msquiclib/include/quic_platform_posix.h:681-699 | its accesses are moves of the machine; true exactly when there was a block, which goes back to the system |
| Ticks.HalvesAddUp | OriginalLinuxCode/msquiclib/include/quic_platform_winkernel.h:664-668 | the exact quotient is the sum of the two partial ones |
| Ticks.ScaleExactIff | OriginalLinuxCode/msquiclib/include/quic_platform_winkernel.h:651-685 | for every input, factor and divisor the conversion is exact exactly when the two products, the numerator carried into the second division and the quotient fit in 64 bits |
| TickFrequencies.ConversionsExact | OriginalLinuxCode/msquiclib/include/quic_platform_winkernel.h:651-685 | at a frequency with freq + 10^6 - gcd(freq, 10^6) <= 2^32 each conversion is exact exactly when its result fits |
| TickFrequencies.FastCountWrong | OriginalLinuxCode/msquiclib/include/quic_platform_winkernel.h:651-669 | at any other frequency there is a count whose time fits and is wrong |
| TickFrequencies.FastTimeWrong | OriginalLinuxCode/msquiclib/include/quic_platform_winkernel.h:671-685 | at any other frequency there is a time whose count fits and is wrong |
| TickFrequencies.ConversionsExactIff | OriginalLinuxCode/msquiclib/include/quic_platform_winkernel.h:651-685 | each conversion is exact for all inputs whose result fits exactly when freq + 10^6 - gcd(freq, 10^6) <= 2^32 |
| TickFrequencies.SlowFrequencies | OriginalLinuxCode/msquiclib/include/quic_platform_winkernel.h:651-685 | that holds for all frequencies up to 2^32 - 999999 and all multiples of a million up to 2^32, and for none above 2^32 |
| TickFrequencies.FrequencyExamples | OriginalLinuxCode/msquiclib/include/quic_platform_winkernel.h:651-685 | it holds at 2^32 - 999998 and not at 2^32 |
| TickFrequencies.FastCounterLosesBits | OriginalLinuxCode/msquiclib/include/quic_platform_winkernel.h:651-669 | a count that is converted wrongly at a frequency of 2^32 though its time would fit |
| TickFrequencies.RoundTrip | OriginalLinuxCode/msquiclib/include/quic_platform_winkernel.h:651-685 | microseconds to ticks and back give the same time for a whole number of ticks and one less otherwise, from 1 MHz up to those frequencies |
| Divisors.GcdSplits | OriginalLinuxCode/msquiclib/include/quic_platform_winkernel.h:651-685 | the divisor in that condition divides the frequency and a million and is a combination of them |

## Left out

- Post metadata frames (type 0x01): the code moves pointers by whole structures and passes a pointer as a value, so it does not decide their bytes; the size function treats them as plaintext.
- Frame types 0x04 to 0x0E: stubs without a parser; the extraction loop makes no progress on them, so they are kept out of its precondition.
- Failures of `malloc` and `realloc`, and freeing: buffers exist at the requested size. In the pool a failing system allocation is modelled.
- The big-endian branch of `Messages.c`: it copies from `unsigned long` temporaries and depends on the layout of bit fields.
- Frames.ExtractFrames: on bytes the parser would read past, or whose type has no parser, it promises nothing; the source has undefined behaviour or does not end there.
- Kernel.ProtocolKernel.SentMessage: the 32-bit overflow of the load counter, which is undefined in C, is not modelled (the statements about runs bound the counter instead); versions and user IDs are unbounded.
- PoolRuns.DepthIsLength: assumes that the depth fits in 16 bits; `PoolLimit.DepthIsLengthIff` shows that this is needed.
- Debug builds of the pool: their flags and simulated allocation failures.
- The pool's memory model: accesses are atomic and sequentially consistent, also the read of the depth outside the lock; a block handed out again by the system counts as a new block; one pool, not several.
- `CxPlatPoolUninitialize`: runs when no other thread uses the pool.
- The root `QMSPkernel.c`: an unfinished earlier form of the kernel.
- The second copies, under `OriginalLinuxCode`, of codec files that also stand at the root: they behave the same for the modelled frame types.
- `FtextPacker.c`, `colorNames.c`, `stringCompareAnyCase.c`: an incomplete packer and simple string functions.
- `chatReader.c`, `chatWriter.c`, `chatCache.c`, `applyMessage`, the runner and the QUIC glue: file access, callbacks and command line.
- All other MsQuic headers, and the tick conversion of Windows user mode, which is a different one.
