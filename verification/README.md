# Verified model of the Steel server

A Dafny model of the parts of Steel, a Minecraft server, whose correctness depends on the order of
events, on layers that must undo each other, or on exact arithmetic. The theorems speak about all
inputs, all runs and all answers of the outside world; where one needs a condition, the condition is
part of it. What the model does not look into (AES, zlib, the registries, the random numbers, UTF-8)
appears as a function or a sequence that is passed in, and every result holds whatever it is, under
the laws written out next to it.

- **Transport.** `Bytes` and `Cfb8` define the byte cipher over any block function. `StreamCipher`
  holds the encrypting writer and the decrypting reader; the inner writer and reader are arbitrary
  sequences of answers, and `ReadIsWritten` joins the two. `VarInt` and `Framing` hold the codecs of
  frames. `WriterSlot` and `Connection` are one state machine of the writer slot, the outgoing task
  and all other senders, in which every offered byte is a step, so that a sender can be cancelled
  after any byte; `ConnectionLife` is about how it ends. `Transport` puts the layers together:
  `EndToEnd` says what a peer decodes after any run, however much of the stream it has received.
- **Login.** `PrePlay` is the state machine up to play, over every sequence of calls.
- **Scoreboards.** `Scoreboard` interleaves mutators, snapshots, writes that may fail or outlive
  their save, and marks.
- **Enchantments.** `Requirements` has the three evaluators of requirement trees, compared with
  Kleene's three-valued logic and with classical evaluation.
- **Items and registries.** `ItemStacks` (component patches), `ItemTemplate`, `TemplateReading` and
  `TemplateCodec` (the recursive template codec and its depth counter), `ProfileProperties` and
  `ProfileCodec` (property multimaps and their network form), `BlockEntities` (the bitmap of block
  ids).
- **Configuration and arithmetic.** `WorldsConfig` says when a worlds file is well formed,
  `WorldsResolver` validates and resolves it, `WorldsResolution` is about the result and
  `WorldsMeaning` spells out what it means. `SignedHex` prints server hashes, `Rounding` rounds a
  binary32. `Sequences` and `Bitwise` hold what several of the modules need about lists of lists and
  bitwise operators.

Objects that the server changes in place are classes whose methods are proved against functions of
the old state; the theorems about whole runs are lemmas about those functions.

Every induction is written out. Where Dafny would add an induction hypothesis of its own,
`{:induction false}` switches it off: the hypothesis that Dafny 4.11 adds is not restricted to
well-typed values, and a contradiction can be derived from it.

Where the code falls short of a law, the exact condition is proved:

- A packet is decoded again if and only if its frame body fits `MAX_PACKET_SIZE`. The plain path
  checks this, the two compression paths do not (`DecodeEncoded`, `EncodedButRejected`).
- A valid profile is written if and only if every property value has at most 32767 bytes; validation
  allows up to 98301 bytes, the prefixed writer does not (`ProfileWritableIff`,
  `LongValueIsNotWritten`).
- The outgoing task writes the last disconnect packet queued if and only if no other one waits in
  the queue behind the items it received (`WritesLastQueuedIff`). One received before the
  cancellation is written after it although a newer one is queued, because that write does not look
  at the token (`ReceivedIsWrittenAfterCancel`); so is one found by draining when a newer one arrives
  before the write (`DrainedIsWrittenBeforeNewer`).
- The encryptor loses a byte if and only if the inner writer answers `Ok(0)` or an error; the
  invariant of `StreamEncryptor` counts such bytes.
- The live enchantment evaluator repeats a decision of the type evaluator at a leaf if and only if
  the leaf is an entity leaf about `This` (`LeafRefinedIff`).
- A template is read back if and only if the tree is no deeper than 512, no item in it is air or
  unregistered and no count is zero; the writer checks none of the last three (`ReadWritten`).
- A scoreboard with nothing to save is on disk as it is in memory, unless a save was dropped during
  its write and that write lands later. Dropping a future does not stop a blocking file write
  (`steel-utils/src/saved_data.rs:210-224`). `CleanAfterStepIff` says exactly which landings and
  which marks break this, `CleanThroughoutIff` in which runs it always holds, and
  `DroppedWriteCanLie` shows a run in which it does not.
- Splitting a stack conserves the count if and only if what stays behind fits an `i32`; a negative
  amount can break that (`ItemStack.Split`).
- `expect` never accepts the client intention, although `select_protocol` handles it.
- The comment on `validate_clean_path` speaks of `.` and `..` components; which components a path
  has is the standard library's business, so the model takes the components as given.

## Model

| member | source | states |
|---|---|---|
| `Cfb8.EncryptAt` | steel-protocol/src/utils.rs:169-216 | every cipher byte is the plaintext byte combined with the block function of the cipher bytes before it, preceded by the initial register: the feedback of CFB8 (NIST SP 800-38A section 6.3, 8-bit segments) |
| `Cfb8.DecryptAtWindow` | steel-protocol/src/utils.rs:252-274 | every decrypted byte is the cipher byte combined with the block function of the same window |
| `Cfb8.RegisterIsWindow` | steel-protocol/src/utils.rs:169-274 | the register holds the last bytes of the initial register followed by the ciphertext |
| `Bytes.XorAt` | steel-protocol/src/utils.rs:169-274 | bytes are combined bit by bit with exclusive or |
| `Cfb8.DecryptEncrypt` | steel-protocol/src/utils.rs:169-274 | CFB8 decryption undoes CFB8 encryption for every block function and initial register |
| `Cfb8.EncryptAppend` | steel-protocol/src/utils.rs:169-216 | encrypting in pieces, carrying the shift register over, gives the encryption of the whole |
| `Cfb8.DecryptAppend` | steel-protocol/src/utils.rs:252-274 | decrypting in chunks, carrying the shift register over, gives the decryption of the whole |
| `Cfb8.RegisterAfterAppend` | steel-protocol/src/utils.rs:169-274 | the register after two pieces of ciphertext is that after their concatenation, so both ends stay in step |
| `Cfb8.EncryptPrefix` | steel-protocol/src/utils.rs:169-216 | the encryption of a prefix is a prefix of the encryption |
| `StreamCipher.FeedOne` | steel-protocol/src/utils.rs:182-194 | one more plaintext byte extends the ciphertext by one byte and shifts the register once |
| `StreamCipher.ChunkSplits` | steel-protocol/src/utils.rs:261-264 | a chunk larger than the buffer is delivered in two parts without loss |
| `StreamCipher.StreamEncryptor.constructor` | steel-protocol/src/utils.rs:153-163 | a new encryptor has delivered, held and lost nothing |
| `StreamCipher.StreamEncryptor.NextByte` | steel-protocol/src/utils.rs:179-192 | the byte to offer is the held one or the freshly encrypted one; a byte that was held is not encrypted again |
| `StreamCipher.StreamEncryptor.Offer` | steel-protocol/src/utils.rs:194-212 | whatever the inner writer answers, each fed byte is delivered, held or lost, and a byte is lost exactly when an answer swallowed it |
| `StreamCipher.StreamEncryptor.OfferByte` | steel-protocol/src/utils.rs:179-213 | one round of the poll loop: at most one encrypted byte is held back, and it encrypts the next unaccepted byte |
| `StreamCipher.StreamEncryptor.PollWrite` | steel-protocol/src/utils.rs:169-216 | one poll: it fails exactly when an answer is an error and otherwise reports as many bytes as the inner writer accepted; as long as nothing was swallowed their encryption was delivered and Pending holds exactly one byte |
| `StreamCipher.StreamEncryptor.PollRest` | steel-protocol/src/utils.rs:169-216 | presenting the unaccepted suffix again continues where the last poll stopped |
| `StreamCipher.StreamEncryptor.WriteAll` | steel-protocol/src/utils.rs:169-216 | for every schedule of answers, the delivered bytes and the held one are the CFB8 encryption of the plaintext prefix that was accepted, each byte encrypted once; it breaks exactly on an error, is dropped exactly while a byte is held, and otherwise is done exactly when all was accepted |
| `StreamCipher.StreamDecryptor.DecryptRange` | steel-protocol/src/utils.rs:266-271 | decrypts the given range in place, leaves every other byte of the buffer alone and moves the register over the ciphertext |
| `StreamCipher.StreamDecryptor.PollInner` | steel-protocol/src/utils.rs:261-264 | the inner reader appends after the filled part: the new bytes are the next ones of its chunks, the rest of the chunks is left, and nothing before is touched |
| `StreamCipher.StreamDecryptor.PollRead` | steel-protocol/src/utils.rs:252-274 | one poll into a partly filled buffer: exactly the new bytes are decrypted and continue the plaintext, bytes already filled are not decrypted again, and no byte of the input is dropped, repeated or made up |
| `StreamCipher.StreamDecryptor.PollOn` | steel-protocol/src/utils.rs:252-274 | polling on continues where the last poll stopped, in the plaintext and in the input |
| `StreamCipher.StreamDecryptor.ReadExact` | steel-protocol/src/utils.rs:252-274 | for every chunking of the input, the bytes read are the next bytes of the decryption of the input, and the read succeeds exactly when that many come before the end of the stream or an error |
| `StreamCipher.ReadIsWritten` | steel-protocol/src/utils.rs:169-274 | whatever polls led here: if nothing was swallowed and the reader is fed bytes the inner writer accepted, everything read is what was written, in order, and all of it once every byte arrived |
| `VarInt.EncodeAt` | steel-utils/src/codec/variable_integer.rs:104-132 | byte i of the reference encoding holds the seven bits from bit 7 * i on, with the high bit set on all but the last |
| `VarInt.WrittenSizeIsEncodedLength` | steel-utils/src/codec/variable_integer.rs:44-49 | the size computed from leading zeros is the length of the encoding, at most five |
| `VarInt.PackPayloadIsLanes` | steel-utils/src/codec/variable_integer.rs:14-31 | the eight masked and shifted terms, combined with bitwise or, put the seven-bit groups into byte lanes, for every value |
| `VarInt.OrMarks` | steel-utils/src/codec/variable_integer.rs:76-83 | the lanes leave the continuation bits clear, so setting them is an addition |
| `VarInt.FrontBytesIsEncode` | steel-utils/src/codec/variable_integer.rs:76-83 | the bit-parallel header writer produces the reference encoding of the test helper |
| `VarInt.WriteIsEncode` | steel-utils/src/codec/variable_integer.rs:104-132 | the branching writer produces the reference encoding for every i32 |
| `VarInt.OrGroup` | steel-utils/src/codec/variable_integer.rs:55-102 | the groups occupy disjoint bits, so setting them by bitwise or adds them up modulo 2^32, the fifth group cut to four bits |
| `VarInt.Read` | steel-utils/src/codec/variable_integer.rs:55-102 | the reading loop, with its masks, shift and bitwise or, computes the value of the first at most five bytes modulo 2^32, or that more bytes are needed, or that there are too many |
| `VarInt.ParseMeans` | steel-utils/src/codec/variable_integer.rs:55-102 | a number ends at the first of at most five bytes without the high bit and is the sum of the groups modulo 2^32; fewer bytes are waited for, five with the high bit are too many |
| `VarInt.ParseEncode` | steel-utils/src/codec/variable_integer.rs:86-132 | every i32 reads back and exactly its own bytes are consumed |
| `VarInt.ParsePrefix` | steel-utils/src/codec/variable_integer.rs:86-132 | a cut encoding reads as incomplete |
| `VarInt.WrittenSizeAtMostParsed` | steel-utils/src/codec/variable_integer.rs:44-102 | no value read took fewer bytes than its written size, so subtracting the written size from a frame length cannot wrap |
| `Framing.FrontVec.constructor` | steel-utils/src/front_vec.rs:23-38 | a new buffer is empty and has the reserved space in front |
| `Framing.FrontVec.Extend` | steel-utils/src/front_vec.rs:57-63 | appends and keeps the reserved space |
| `Framing.FrontVec.SetInFront` | steel-utils/src/front_vec.rs:66-73 | puts bytes in front and uses up that much of the reserved space |
| `Framing.FrontVec.SetVarIntInFront` | steel-utils/src/codec/variable_integer.rs:76-83 | puts the encoding of a VarInt in front |
| `Framing.FromDataUncompressed` | steel-protocol/src/packet_traits.rs:129-143 | yields the plain frame, or an error exactly when the data is too long; the reserved space always suffices |
| `Framing.FromPacketData` | steel-protocol/src/packet_traits.rs:145-200 | yields the below-threshold or the compressed frame as the format demands; neither reserved space can run out |
| `Framing.PlainForm` | steel-protocol/src/packet_traits.rs:129-143 | without compression the frame is the length and the data, and is made exactly up to 2097152 bytes |
| `Framing.PlainTooLong` | steel-protocol/src/packet_traits.rs:129-143 | longer data is refused with the length of the frame it would need |
| `Framing.ShortForm` | steel-protocol/src/packet_traits.rs:145-200 | below the threshold the frame is the length, a zero and the data, up to 8388598 bytes of data |
| `Framing.DeflatedForm` | steel-protocol/src/packet_traits.rs:145-200 | from the threshold on it is the length, the length of the data and the deflated data, up to 8388598 bytes of data |
| `Framing.SplitFrame` | steel-protocol/src/packet_reader.rs:110-122 | a frame that is cut off has at most the maximal size and leaves a shorter stream |
| `Framing.NetworkDecoder.SetCompression` | steel-protocol/src/packet_reader.rs:85-89 | the threshold is in force afterwards |
| `Framing.NetworkDecoder.ReadFrame` | steel-protocol/src/packet_reader.rs:110-122 | reads the length and exactly that many bytes, or fails as the format says |
| `Framing.NetworkDecoder.PacketBuffer` | steel-protocol/src/packet_reader.rs:126-163 | finds the packet data of a frame body in all three formats within the size limits |
| `Framing.NetworkDecoder.FromBuffer` | steel-protocol/src/packet_reader.rs:165-176 | splits id and payload without moving the payload out of the buffer |
| `Framing.NetworkDecoder.GetRawPacket` | steel-protocol/src/packet_reader.rs:110-176 | decodes exactly the first frame of the input and leaves the rest, or fails as the format says |
| `Framing.FrameLimits` | steel-protocol/src/packet_reader.rs:110-122 | a negative length or one above 2097152 is rejected, too little data is waited for, and otherwise the frame is exactly that much of the data |
| `Framing.CompressedBody` | steel-protocol/src/packet_reader.rs:126-163 | under compression a length above 8388608 is rejected, a positive one needs data that inflates to it, and under a zero more data than the threshold is rejected |
| `Framing.DataFormat` | steel-protocol/src/packet_reader.rs:165-176 | packet data is an id and any payload; without an id or a length in the first five bytes it is malformed |
| `Framing.DecodeBodyRoundTrip` | steel-protocol/src/packet_reader.rs:126-176 | a frame body decodes to its packet in all three formats; the nonzero threshold keeps a compressed body from carrying marker 0 |
| `Framing.DecodeEncoded` | steel-protocol/src/packet_traits.rs:129-228 | an encoded packet decodes to itself and leaves the following bytes intact exactly when its frame body fits the decoder's limit |
| `Framing.UncompressedAlwaysDecodes` | steel-protocol/src/packet_traits.rs:129-143 | without compression the encoder's own check implies that limit |
| `Framing.EncodedButRejected` | steel-protocol/src/packet_traits.rs:145-200 | with a threshold above the limit a packet of maximal size is encoded and then rejected: the compressed paths lack the check |
| `Framing.CutFrameIsIncomplete` | steel-protocol/src/packet_reader.rs:110-122 | a frame cut anywhere reads as incomplete, never as a packet or an error |
| `Framing.EmptyIsIncomplete` | steel-protocol/src/packet_reader.rs:110-122 | an empty stream is incomplete |
| `Framing.DecodeFrames` | steel-protocol/src/packet_reader.rs:110-176 | any sequence of sendable packets, under any change of the compression setting between them, decodes to the same ids and payloads |
| `Framing.DecodeStream` | steel-protocol/src/packet_reader.rs:110-176 | the same when a cut frame follows: all whole packets, then the decoder waits |
| `Framing.DecodePrefix` | steel-protocol/src/packet_reader.rs:110-176 | a stream of frames cut anywhere decodes to exactly the packets whose frames arrived whole, and then the decoder waits |
| `WriterSlot.FreshValid` | steel-login/src/tcp_client.rs:239-270 | a new connection satisfies the invariant of the wire |
| `WriterSlot.TakeValid` | steel-login/src/tcp_client.rs:347-350 | taking the writer keeps the invariant |
| `WriterSlot.AbandonValid` | steel-login/src/tcp_client.rs:351-358 | dropping the writer on failure or cancellation keeps the invariant: the bytes cut off are a prefix of the packet it was taken for |
| `WriterSlot.PutBackValid` | steel-login/src/tcp_client.rs:353-356 | putting the writer back after a whole packet keeps the invariant |
| `WriterSlot.ReleaseValid` | steel-login/src/tcp_client.rs:361-363 | emptying the slot keeps the invariant |
| `WriterSlot.SwitchOnValid` | steel-protocol/src/packet_writer.rs:111-121 | switching encryption on between packets keeps the invariant |
| `WriterSlot.PrepareInStep` | steel-protocol/src/utils.rs:177-194 | offering a byte keeps register, held byte and ciphertext in step |
| `WriterSlot.OfferValid` | steel-protocol/src/packet_writer.rs:124-132 | every answer of the inner writer to an offered byte keeps the invariant |
| `WriterSlot.OfferMeans` | steel-protocol/src/packet_writer.rs:124-132 | an accepted byte is one more on the wire and in the packet, a byte that is not accepted is offered again, and an error or a plain Ok(0) ends the writer |
| `WriterSlot.WaitingDoesNotShow` | steel-protocol/src/utils.rs:177-204 | however often the inner writer is not ready, what follows is the same as without waiting |
| `WriterSlot.PlaintextIsPrefix` | steel-login/src/tcp_client.rs:343-358 | the plaintext is a prefix of the packets the writer was taken for |
| `WriterSlot.PeerRecovers` | steel-protocol/src/packet_reader.rs:94-107 | a peer that starts decrypting where the server started encrypting recovers, from any number of bytes, that many bytes of plaintext |
| `Connection.WireStep` | steel-login/src/tcp_client.rs:319-500 | every step of every sender and of the outgoing task keeps the invariant of the wire |
| `Connection.TaskStep` | steel-login/src/tcp_client.rs:380-500 | every step keeps the queue accounting: what was queued is what was taken, drained and still waits, and the outgoing task wrote a prefix of it |
| `Connection.RunInv` | steel-login/src/tcp_client.rs:319-500 | every run, whatever it interleaves, stays within both invariants |
| `Connection.TakesAreHanded` | steel-login/src/tcp_client.rs:319-358 | the writer was taken for exactly the packets that the steps of the run handed over, in order |
| `Connection.SendersHandTheirPackets` | steel-login/src/tcp_client.rs:319-341 | the packets of senders other than the outgoing task stem from their own calls, one for one and in order |
| `Connection.HandedWereRequested` | steel-login/src/tcp_client.rs:319-500 | whatever holds of all packets queued or given to a sender holds of all packets handed to the writer |
| `Connection.WireIsWholePackets` | steel-login/src/tcp_client.rs:319-500 | after every run, failures and cancellations included, the plaintext is whole packets followed by at most one prefix of a packet, these packets are in order the ones handed to the writer, encryption starts between two packets, and the inner writer got the clear part followed by the encryption of the rest |
| `Connection.GoneIsForever` | steel-login/src/tcp_client.rs:343-363 | once the slot is empty no step changes the wire |
| `Connection.HistoryGrows` | steel-login/src/tcp_client.rs:319-500 | nothing written is taken back and the key is set at most once |
| `Connection.TaskWritesQueueInOrder` | steel-login/src/tcp_client.rs:380-500 | the packets of the outgoing task are the first queued items in order, all ordinary, then at most one disconnect packet |
| `Connection.TaskHandsQueuedPackets` | steel-login/src/tcp_client.rs:380-500 | a write the outgoing task began and did not complete was for the next queued item or for the last disconnect packet found by draining |
| `Connection.NothingAfterDisconnect` | steel-login/src/tcp_client.rs:405-412 | once the outgoing task wrote a disconnect packet it writes nothing more |
| `ConnectionLife.FinishedIsSilent` | steel-login/src/tcp_client.rs:361-363 | once the outgoing task has finished, the connection is cancelled, the slot is empty, and nobody writes another byte, whatever happens then |
| `ConnectionLife.LoopChoices` | steel-login/src/tcp_client.rs:393-470 | exactly when the loop receives, finds the queue closed, sees the cancellation, takes a key, an upgrade or the end of updates |
| `ConnectionLife.OnlyTheHolder` | steel-login/src/tcp_client.rs:343-363 | a writer is given up or put back only by its holder, and taken or found missing only when nobody holds it |
| `ConnectionLife.WriteOutcome` | steel-login/src/tcp_client.rs:405-430 | after an ordinary packet the task is back in the loop, after a disconnect packet it releases the writer, and exactly which outcomes cancel |
| `ConnectionLife.FailureCancels` | steel-login/src/tcp_client.rs:380-470 | a failed or refused write of the outgoing task, a closed queue, closed updates and a key without a writer all cancel the connection |
| `ConnectionLife.CancelledForever` | steel-login/src/tcp_client.rs:395-400 | a cancellation is never taken back, and nothing more is received in the loop |
| `ConnectionLife.ClosedQueueIsEmpty` | steel-login/src/tcp_client.rs:380-470 | the queue is found closed only after everything ever queued was received and written |
| `ConnectionLife.KeySwitchesOnce` | steel-login/src/tcp_client.rs:433-444 | the first key switches encryption on right after the packets written so far, a second one crashes the task, and one without a writer changes nothing on the wire |
| `ConnectionLife.UpgradeHandsOver` | steel-login/src/tcp_client.rs:445-472 | after an upgrade the task takes and writes nothing more: queue and writer are left to the sender that takes over |
| `ConnectionLife.QueuedCanBeWritten` | steel-login/src/tcp_client.rs:401-430 | a packet queued on an idle connection can be received and written in full, and the task is then where it was |
| `ConnectionLife.SenderCanWrite` | steel-login/src/tcp_client.rs:319-358 | whenever the writer is free another sender can write a packet in full, and nothing else changes |
| `ConnectionLife.CanAlwaysFinish` | steel-login/src/tcp_client.rs:380-500 | from every reachable state, short of an upgrade or a crash, the task can still finish: it is never stuck |
| `Connection.WritesLastQueuedIff` | steel-login/src/tcp_client.rs:380-500 | in every run, cancelled or not, the disconnect packet that the outgoing task is about to write or has written is the last one queued exactly when no other one waits in the queue behind the items it received |
| `Connection.DrainFindsLastQueued` | steel-login/src/tcp_client.rs:480-500 | in particular, when draining ends it holds the last disconnect packet of everything queued by then |
| `Connection.ReceivedIsWrittenAfterCancel` | steel-login/src/tcp_client.rs:406-412 | otherwise not: a disconnect packet received before the cancellation is written after it although a newer one is queued, for any two packets |
| `Connection.DrainedIsWrittenBeforeNewer` | steel-login/src/tcp_client.rs:480-500 | nor when a newer one is queued between the end of the drain and the write |
| `Transport.ReceivedIsPlaintext` | steel-protocol/src/packet_reader.rs:49-107 | however many bytes arrived, what a peer makes of them is that many bytes of the packets handed to the writer |
| `Transport.EndToEnd` | steel-login/src/tcp_client.rs:319-500 | for every run and every cut of the byte stream, a peer that decrypts and decodes gets exactly the packets whose frames lie within what arrived, and then waits |
| `Transport.EndToEndFromRequests` | steel-login/src/tcp_client.rs:319-500 | for that it is enough that everything ever queued or given to a sender is a frame |
| `PrePlay.PrePlayState.constructor` | steel-login/src/pre_play_state.rs:124-128 | starts in the handshake |
| `PrePlay.PrePlayState.Expect` | steel-login/src/pre_play_state.rs:163-192 | accepts exactly the packets of the current state, never the client intention |
| `PrePlay.PrePlayState.SelectProtocol` | steel-login/src/pre_play_state.rs:147-161 | succeeds only in the handshake; a failing call changes nothing |
| `PrePlay.PrePlayState.WaitForKey` | steel-login/src/pre_play_state.rs:194-201 | succeeds only at the start of login; a failing call changes nothing |
| `PrePlay.PrePlayState.BeginAuthentication` | steel-login/src/pre_play_state.rs:203-211 | hands out the name that waited for the key; a failing call changes nothing |
| `PrePlay.PrePlayState.CompleteLogin` | steel-login/src/pre_play_state.rs:213-227 | succeeds from the start of login or from authentication; a failing call changes nothing |
| `PrePlay.PrePlayState.AcknowledgeLogin` | steel-login/src/pre_play_state.rs:229-247 | carries the profile into configuration; a failing call changes nothing |
| `PrePlay.PrePlayState.SelectKnownPacks` | steel-login/src/pre_play_state.rs:249-256 | moves on within configuration; a failing call changes nothing |
| `PrePlay.PrePlayState.FinishConfiguration` | steel-login/src/pre_play_state.rs:258-271 | returns the profile kept since login and enters play; a failing call changes nothing |
| `PrePlay.RunLeads` | steel-login/src/pre_play_state.rs:123-279 | after every call sequence the successful calls are exactly those that lead to the state reached |
| `PrePlay.PlayNeedsTheWholeSequence` | steel-login/src/pre_play_state.rs:123-279 | play is reached only by login selection, completion directly or via key and authentication, acknowledgement, known packs and finish, in that order |
| `PrePlay.WholeSequencePlays` | steel-login/src/pre_play_state.rs:123-279 | conversely both sequences lead to play with the profile they logged in |
| `PrePlay.FinishReturnsTheLoginProfile` | steel-login/src/pre_play_state.rs:213-271 | the profile returned at the end is the one given to the only successful complete_login |
| `PrePlay.SuccessRaisesRank` | steel-login/src/pre_play_state.rs:123-279 | every successful call raises the rank of the state |
| `PrePlay.AtMostSevenSuccesses` | steel-login/src/pre_play_state.rs:123-279 | a run has at most as many successes as the rank reached, and that is at most seven |
| `PrePlay.ExpectMatchesCalls` | steel-login/src/pre_play_state.rs:163-271 | a packet is expected exactly when the call that handles it would succeed, at most one packet in each state, and never the client intention |
| `PrePlay.EveryStateIsReached` | steel-login/src/pre_play_state.rs:123-279 | every state is reached by some calls |
| `PrePlay.FinalStates` | steel-login/src/pre_play_state.rs:147-161 | status and play are final, and a handshake accepts exactly the status and the login protocol |
| `PrePlay.PhasesTell` | steel-login/src/pre_play_state.rs:130-145 | the phase named in a refusal tells which packet would have been expected |
| `Scoreboard.Scoreboard.MarkDirty` | steel-core/src/scoreboard.rs:415-417 | raises the revision by one |
| `Scoreboard.Scoreboard.AddObjective` | steel-core/src/scoreboard.rs:197-225 | new state, revision and error are those of the mutation; an error changes nothing |
| `Scoreboard.Scoreboard.AddTeam` | steel-core/src/scoreboard.rs:251-260 | new state, revision and error are those of the mutation; an error changes nothing |
| `Scoreboard.Scoreboard.AddHolderToTeam` | steel-core/src/scoreboard.rs:291-311 | new state, revision and error are those of the mutation; an error changes nothing |
| `Scoreboard.Scoreboard.SetScore` | steel-core/src/scoreboard.rs:350-377 | new state, revision and error are those of the mutation; an error changes nothing |
| `Scoreboard.Scoreboard.SetScoreLocked` | steel-core/src/scoreboard.rs:380-404 | new state, revision and error are those of the mutation; an error changes nothing |
| `Scoreboard.Scoreboard.PendingSave` | steel-core/src/scoreboard.rs:419-429 | a snapshot of state and revision, or nothing when the revision is saved |
| `Scoreboard.Scoreboard.MarkSaved` | steel-core/src/scoreboard.rs:431-433 | the saved revision becomes the larger of the two |
| `Scoreboard.PutScoreChanges` | steel-core/src/scoreboard.rs:350-404 | storing a score changes the state exactly when it was not stored already |
| `Scoreboard.RefusedExactly` | steel-core/src/scoreboard.rs:197-404 | which mutations are refused and with which reason: empty or taken names, missing objectives and teams, values of read-only objectives |
| `Scoreboard.MutationMeans` | steel-core/src/scoreboard.rs:197-404 | a mutation changes exactly the named objective, team, membership or score, to exactly the given value |
| `Scoreboard.OtherScoresStay` | steel-core/src/scoreboard.rs:350-404 | setting one score leaves every other score alone |
| `Scoreboard.ValueAndLockAreIndependent` | steel-core/src/scoreboard.rs:350-404 | value and lock of a score can be set in either order with the same result |
| `Scoreboard.SettingKeepsTheLock` | steel-core/src/scoreboard.rs:350-377 | a first value is locked, a later value keeps the lock |
| `Scoreboard.LastTeamWins` | steel-core/src/scoreboard.rs:291-311 | a holder is in the last team it was added to |
| `Scoreboard.Validate` | steel-core/src/scoreboard.rs:442-512 | accepts exactly the well-formed states: nonempty names, scores for existing objectives, members of existing teams |
| `Scoreboard.WellFormedMeans` | steel-core/src/scoreboard.rs:442-512 | these are the states without an empty name, with scores only for existing objectives and members only of existing teams |
| `Scoreboard.MutateWellFormed` | steel-core/src/scoreboard.rs:197-404 | no mutation leads out of the states that loading accepts |
| `Scoreboard.BumpIffChanged` | steel-core/src/scoreboard.rs:197-404 | a mutator raises the revision if and only if it changes the state |
| `Scoreboard.RunCounted` | steel-core/src/scoreboard.rs:197-571 | every interleaving of mutators, snapshots, successful, failed, dropped and late writes and marks keeps counters, history and snapshots in agreement: a snapshot holds the state of its revision |
| `Scoreboard.LateWriteValidIff` | steel-core/src/scoreboard.rs:554-571 | a write that outlives its dropped save keeps the invariant of the save loop, under which the snapshot about to be marked is on disk, exactly when its content is on disk already or the scoreboard is dirty with no snapshot waiting to be marked |
| `Scoreboard.ValidThroughoutIff` | steel-core/src/scoreboard.rs:554-571 | the invariant holds throughout a run exactly when every late write that lands in it is of that kind |
| `Scoreboard.NothingLateIsOrderly` | steel-core/src/scoreboard.rs:554-571 | in particular when no dropped write lands late; such runs are called orderly |
| `Scoreboard.RunValid` | steel-core/src/scoreboard.rs:197-571 | after an orderly run the invariant holds |
| `Scoreboard.RevisionsGrow` | steel-core/src/scoreboard.rs:415-433 | both counters only grow and the saved revision never overtakes the current one |
| `Scoreboard.OneSaveAtATime` | steel-core/src/scoreboard.rs:554-556 | a save keeps every other one from beginning until it ends, fails or is dropped |
| `Scoreboard.SaveEnds` | steel-core/src/scoreboard.rs:554-571 | a failed write ends the save and marks nothing |
| `Scoreboard.SaveSteps` | steel-core/src/scoreboard.rs:554-571 | exactly when a save can begin, visit, write, fail, mark, end and be dropped: it is never stuck |
| `Scoreboard.SaveStepIsProgress` | steel-core/src/scoreboard.rs:554-571 | every step of a save is progress, whatever mutates meanwhile, so a save ends |
| `Scoreboard.LandsAtMostOnce` | steel-core/src/scoreboard.rs:554-571 | a dropped write lands at most once |
| `Scoreboard.SaveReachesAll` | steel-core/src/scoreboard.rs:554-571 | a save that gets through its list has saved every scoreboard on it at least as it was when the save began, whatever changed meanwhile |
| `Scoreboard.SaveCounts` | steel-core/src/scoreboard.rs:554-571 | the count of a save is the number of scoreboards it has marked |
| `Scoreboard.CleanAfterStepIff` | steel-core/src/scoreboard.rs:415-571 | clean means saved survives a step exactly when a late write finds something to save or brings the current state, and a mark of the current revision finds its snapshot on disk; no other step can break it |
| `Scoreboard.CleanThroughoutIff` | steel-core/src/scoreboard.rs:197-571 | clean means saved holds at every point of a run exactly when every step meets that condition |
| `Scoreboard.CleanMeansSaved` | steel-core/src/scoreboard.rs:554-571 | after such a run, whenever nothing is pending, the disk holds exactly the current state and loading accepts it |
| `Scoreboard.OrderlyKeepsClean` | steel-core/src/scoreboard.rs:554-571 | orderly runs are among them |
| `Scoreboard.CleanUnlessLate` | steel-core/src/scoreboard.rs:197-571 | so in every run in which no dropped write lands late, whenever nothing is pending the disk holds exactly the current state |
| `Scoreboard.DroppedWriteCanLie` | steel-core/src/scoreboard.rs:554-571 | otherwise not: when a save is dropped during its write and the next change is saved, the dropped write can land last and leave a clean scoreboard with a stale disk |
| `Scoreboard.OverlappingSavesWouldLie` | steel-core/src/scoreboard.rs:554-556 | without the save lock two overlapping saves could leave a clean scoreboard with a stale disk |
| `Requirements.MatchesEntityExactly` | steel-core/src/enchantment_helper.rs:920-983 | the live evaluation of an entity predicate is undecided exactly when it meets an unsupported part before a part that does not hold, and otherwise says whether type, vehicle, flags, game mode and food all hold |
| `Requirements.MatchesTypeExactly` | steel-core/src/enchantment_helper.rs:883-918 | the type decides exactly where vehicle and flags are unconstrained, and then says whether the type is right |
| `Requirements.DamageMatchesExactly` | steel-core/src/enchantment_helper.rs:997-1011 | a damage source matches when it is direct as asked, has the tags it should have and lacks those it should not |
| `Requirements.LeavesMean` | steel-core/src/enchantment_helper.rs:736-881 | what each evaluator does at each leaf: a chance takes one draw and holds below it, targets select their own type, and the live evaluator looks only at the entity itself |
| `Requirements.State` | steel-core/src/enchantment_helper.rs:736-821 | the short-circuiting recursion with its has_unknown flag computes the evaluation of the tree and the draws it takes |
| `Requirements.TermsState` | steel-core/src/enchantment_helper.rs:744-769 | the loop over the terms of a junction, the same |
| `Requirements.JunctionSnoc` | steel-core/src/enchantment_helper.rs:744-821 | terms are evaluated from left to right with the draws that the earlier ones left; a decided junction takes no more draws |
| `Requirements.InversionMeans` | steel-core/src/enchantment_helper.rs:770-776 | an inversion takes the draws of its term and turns a decision around |
| `Requirements.EvaluateIsKleene` | steel-core/src/enchantment_helper.rs:736-776 | the deterministic evaluator is Kleene's strong three-valued logic |
| `Requirements.DecidedIsForced` | steel-core/src/enchantment_helper.rs:736-776 | a decided answer is the classical value under every assignment to the undecided leaves |
| `Requirements.DecidedIffForced` | steel-core/src/enchantment_helper.rs:736-776 | and the answer is b exactly when every assignment makes the tree b, so None exactly when both outcomes are possible |
| `Requirements.ShuffleSameValue` | steel-core/src/enchantment_helper.rs:736-776 | the answer does not depend on the order of terms at any depth |
| `Requirements.EvaluateRefines` | steel-core/src/enchantment_helper.rs:736-881 | an evaluator whose leaves repeat the decisions of another repeats its decisions on whole trees |
| `Requirements.DrawsCannotOverturn` | steel-core/src/enchantment_helper.rs:778-821 | the random evaluator returns every decision of the deterministic one, for every sequence of draws |
| `Requirements.TypeDecidesEntity` | steel-core/src/enchantment_helper.rs:883-983 | what the type alone decides about an entity predicate holds of every live entity of that type |
| `Requirements.LeafRefinedIff` | steel-core/src/enchantment_helper.rs:838-881 | the live evaluator repeats a decision at a leaf exactly when the leaf is an entity leaf about This; damage-source leaves and other targets lose it |
| `Requirements.MaskedEvaluationHoldsLive` | steel-core/src/enchantment_helper.rs:838-983 | on every tree, what the type decides without the leaves that the live evaluator does not look into holds in the live evaluator, for every entity of the type and every sequence of draws |
| `Requirements.TypeEvaluationHoldsLive` | steel-core/src/enchantment_helper.rs:838-983 | on trees about This, every decision made from the type holds in the live evaluator, for every entity of the type and every sequence of draws |
| `ProfileProperties.New` | steel-registry/src/game_profile.rs:67-84 | rejects more than sixteen properties and otherwise yields the grouped list |
| `ProfileProperties.InsertedIsGrouped` | steel-registry/src/game_profile.rs:67-84 | inserting each property behind the last one of its name groups the list |
| `ProfileProperties.GroupedPermutes` | steel-registry/src/game_profile.rs:67-84 | grouping is a permutation |
| `ProfileProperties.GroupedKeepsMultimap` | steel-registry/src/game_profile.rs:67-84 | grouping is stable: every name keeps its own sequence |
| `ProfileProperties.GroupedContiguous` | steel-registry/src/game_profile.rs:67-84 | equal names are contiguous after grouping |
| `ProfileProperties.GroupedKeepsOrder` | steel-registry/src/game_profile.rs:67-84 | names keep the order of their first occurrence |
| `ProfileProperties.ContiguousIsGrouped` | steel-registry/src/game_profile.rs:67-84 | a contiguous list is grouped already |
| `ProfileProperties.GroupingIsIdempotent` | steel-registry/src/game_profile.rs:67-84 | grouping twice is grouping once |
| `ProfileProperties.PropertyGroupEnd` | steel-registry/src/game_profile.rs:119-127 | the end of the run of equal names, or the start itself past the end |
| `ProfileProperties.Position` | steel-registry/src/game_profile.rs:103-106 | the first occurrence of a name, or none |
| `ProfileProperties.RunIsGroup` | steel-registry/src/game_profile.rs:100-113 | in a contiguous list the run at the first occurrence of a name is the whole group |
| `ProfileProperties.OneSidedIsEnough` | steel-registry/src/game_profile.rs:94-115 | between lists of one length, agreeing on the names of one side is agreeing on all names |
| `ProfileProperties.Equal` | steel-registry/src/game_profile.rs:94-115 | the one-sided walk decides equality of the name-to-sequence multimaps, so it is an equivalence |
| `ProfileProperties.EqualAfterGrouping` | steel-registry/src/game_profile.rs:66-115 | regrouping never changes which lists are equal |
| `ProfileCodec.ReadWrittenText` | steel-registry/src/game_profile.rs:284-293 | a written string reads back and leaves the rest |
| `ProfileCodec.ReadWrittenProperty` | steel-registry/src/game_profile.rs:245-282 | a written property reads back and leaves the rest |
| `ProfileCodec.WriteProperties` | steel-registry/src/game_profile.rs:245-260 | count and properties in order, or an error exactly when there are more than sixteen or one cannot be written |
| `ProfileCodec.ReadProperties` | steel-registry/src/game_profile.rs:262-282 | reads a count of at most sixteen and that many properties, or fails |
| `ProfileCodec.ReadCounted` | steel-registry/src/game_profile.rs:269-281 | the reading loop |
| `ProfileCodec.WritableIff` | steel-registry/src/game_profile.rs:284-287 | a valid property can be written exactly when its value has at most 32767 bytes: the prefixed writer's bound is narrower than the validated one |
| `ProfileCodec.LongValueIsNotWritten` | steel-registry/src/game_profile.rs:284-287 | a value of 10923 three-byte characters is valid and cannot be written |
| `ProfileCodec.ProfileWritableIff` | steel-registry/src/game_profile.rs:171-177 | a profile can be written exactly when no property value exceeds 32767 bytes |
| `ProfileCodec.LimitsMean` | steel-registry/src/game_profile.rs:218-243 | the limits in numbers: sixteen printable characters of a name; 64, 32767 and 1024 units of property name, value and signature |
| `ProfileCodec.NewProfileExactly` | steel-registry/src/game_profile.rs:140-148 | a profile is made exactly from a valid name and at most sixteen properties, and keeps id, name and the multimap of properties |
| `ProfileCodec.ProfileLayout` | steel-registry/src/game_profile.rs:171-177 | the bytes of a profile: id, name, number of properties, and each property as name, value and flagged signature |
| `ProfileCodec.ReadTextExactly` | steel-registry/src/game_profile.rs:284-293 | a text is read exactly for a length within the limit, with that many bytes of valid text |
| `ProfileCodec.CountAndFlag` | steel-registry/src/game_profile.rs:262-282 | a count outside zero to sixteen is refused, and any nonzero flag announces a signature |
| `ProfileCodec.ProfileRoundTrip` | steel-registry/src/game_profile.rs:171-187 | writing, reading and regrouping gives the same profile back and leaves the following data alone |
| `ProfileCodec.ReadProfileValid` | steel-registry/src/game_profile.rs:179-187 | whatever bytes arrive, a profile that is read satisfies all limits and is grouped |
| `ItemStacks.StackShows` | steel-registry/src/item_stack.rs:99-101 | a stack is empty exactly with a count below one or of air; it then looks like air without components, and otherwise shows what the patch sets, not what it removes, else the prototype |
| `ItemStacks.SanitizeKeeps` | steel-registry/src/data_components/registry/patch.rs:163-171 | sanitizing keeps exactly values that differ from the prototype and removals of keys the prototype has |
| `ItemStacks.SanitizeKeepsComponents` | steel-registry/src/data_components/registry/patch.rs:163-171 | sanitizing yields a sanitized patch that shows the same components |
| `ItemStacks.SanitizeIsIdempotent` | steel-registry/src/data_components/registry/patch.rs:163-171 | a patch is sanitized exactly when sanitizing leaves it alone |
| `ItemStacks.PatchIsCanonical` | steel-registry/src/item_stack.rs:446-455 | over one prototype, sanitized patches are equal exactly when they show the same components |
| `ItemStacks.EditMeaning` | steel-registry/src/item_stack.rs:446-500 | each edit changes exactly its key, to exactly its value; a new item puts the old patch over the new prototype |
| `ItemStacks.EditKeepsTheRest` | steel-registry/src/item_stack.rs:873-878 | item and count change only by their own edits, the item only to a registered one |
| `ItemStacks.ApplyValid` | steel-registry/src/item_stack.rs:476-500 | each edit keeps the patch sanitized against the current prototype |
| `ItemStacks.EditsStayValid` | steel-registry/src/item_stack.rs:86-91 | every history of edits and item changes keeps the patch sanitized |
| `ItemStacks.EditsInOrder` | steel-registry/src/item_stack.rs:476-500 | edits take effect one after another |
| `ItemStacks.HistoryDoesNotShow` | steel-registry/src/item_stack.rs:476-500 | two histories end in the same stack exactly when item, count and shown components agree |
| `ItemStacks.SameIffSamePatch` | steel-registry/src/item_stack.rs:358-377 | stacks are the same exactly when both are empty, or neither is and item and patch are equal |
| `ItemStacks.ItemStack.constructor` | steel-registry/src/item_stack.rs:86-91 | the patch is sanitized and shows what the given one showed |
| `ItemStacks.ItemStack.SetValue` | steel-registry/src/item_stack.rs:476-484 | the edit, keeping the invariant |
| `ItemStacks.ItemStack.Remove` | steel-registry/src/item_stack.rs:488-494 | the edit, keeping the invariant |
| `ItemStacks.ItemStack.Clear` | steel-registry/src/item_stack.rs:498-500 | the edit, keeping the invariant |
| `ItemStacks.ItemStack.ChangeItem` | steel-registry/src/item_stack.rs:873-878 | the item change, keeping the invariant; an unknown item changes nothing |
| `ItemStacks.ItemStack.Split` | steel-registry/src/item_stack.rs:176-185 | both parts keep item and patch; their counts add up to the old count exactly when what stays behind fits an i32, which only a negative amount can prevent |
| `ItemStacks.ItemStack.GetEffectiveValueRaw` | steel-registry/src/item_stack.rs:446-455 | the component callers see; none on an empty stack |
| `ItemStacks.CollectPrototype` | steel-registry/src/item_stack.rs:1036-1050 | collects every prototype key that is not removed |
| `ItemStacks.CollectPatch` | steel-registry/src/item_stack.rs:1041-1055 | collects every key the patch sets |
| `ItemStacks.ItemStack.AgreeOn` | steel-registry/src/item_stack.rs:1056-1069 | comparing on a set of keys that covers both sides decides equality on all keys |
| `ItemStacks.ItemStack.ComponentsEqual` | steel-registry/src/item_stack.rs:1033-1072 | the key-collecting loops decide extensional equality of the shown components, empty stacks included |
| `ItemStacks.ItemStack.IsSameItemSameComponents` | steel-registry/src/item_stack.rs:363-373 | same shown item, and both empty or the same shown components |
| `ItemTemplate.WriteTemplateIff` | steel-registry/src/item_stack_template.rs:298-308 | a template is written exactly when it is no deeper than the levels left and every template in it can be written |
| `ItemTemplate.ReadComponentWritten` | steel-registry/src/data_components/registry/patch_network.rs:60-124 | a written component is read back, or rejected exactly when a template in it is not acceptable |
| `ItemTemplate.ReadPatchWritten` | steel-registry/src/data_components/registry/patch_network.rs:6-124 | the same for a whole patch; entries are inserted as into a map |
| `ItemTemplate.ReadWritten` | steel-registry/src/item_stack_template.rs:298-323 | reading what was written gives the same template and the following data exactly when the tree is not too deep and every template in it is a registered non-air item with nonzero count; otherwise an error |
| `ItemTemplate.TemplateLayout` | steel-registry/src/item_stack_template.rs:298-308 | the bytes of a template: item, count, numbers of added and removed components, added ids with values, removed ids |
| `ItemTemplate.ValueLayout` | steel-registry/src/data_components/components/recursive_items.rs:556-566 | the bytes of a component: those of its own codec, or the number of slots and the slots with their flags |
| `ItemTemplate.LastEntryCounts` | steel-registry/src/data_components/registry/patch_network.rs:60-124 | among repeated entries of an id the last one counts, and every other entry stays |
| `ItemTemplate.SlotFlags` | steel-registry/src/data_components/components/recursive_items.rs:575-585 | a flagged slot is empty after a zero and filled after any other flag |
| `TemplateReading.ReadIsFormed` | steel-registry/src/item_stack_template.rs:310-323 | whatever bytes arrive, a template that is read is no higher than the levels left and at every depth has a registered non-air item, a nonzero count and a patch that is a map of known components laid out as their kinds demand |
| `TemplateReading.ReadIsSound` | steel-registry/src/item_stack_template.rs:263-274 | at every depth the item is registered and not air and the count is not zero |
| `TemplateReading.FlatTemplate` | steel-registry/src/item_stack_template.rs:310-323 | a template without components is accepted exactly with a registered item other than air, a nonzero count and a level left |
| `TemplateReading.ReadWriteRead` | steel-registry/src/item_stack_template.rs:298-323 | what was read from any bytes can be written and reads back the same, provided the other component codecs can write what they read |
| `TemplateCodec.DepthCounter.constructor` | steel-registry/src/item_stack_template.rs:27-29 | the counter starts at zero |
| `TemplateCodec.DepthCounter.Enter` | steel-registry/src/item_stack_template.rs:33-45 | enters exactly below 512 and then counts one more |
| `TemplateCodec.DepthCounter.Leave` | steel-registry/src/item_stack_template.rs:48-52 | dropping the guard counts one less |
| `TemplateCodec.Write` | steel-registry/src/item_stack_template.rs:298-308 | the counter ends where it started on success and on every error, and the result is that of the levels left |
| `TemplateCodec.WriteEntries` | steel-registry/src/data_components/registry/patch_network.rs:6-56 | writes a patch with the counter unchanged at the end |
| `TemplateCodec.WriteComponents` | steel-registry/src/data_components/registry/patch_network.rs:30-46 | the loop over added components, the same |
| `TemplateCodec.WriteList` | steel-registry/src/data_components/components/recursive_items.rs:556-566 | the loop over nested templates, the same |
| `TemplateCodec.Read` | steel-registry/src/item_stack_template.rs:310-323 | the counter ends where it started on success and on every error, and the result is that of the levels left |
| `TemplateCodec.ReadEntries` | steel-registry/src/data_components/registry/patch_network.rs:60-124 | reads a patch with the counter unchanged at the end |
| `TemplateCodec.ReadComponents` | steel-registry/src/data_components/registry/patch_network.rs:72-103 | the loop over added components, the same |
| `TemplateCodec.ReadRemovals` | steel-registry/src/data_components/registry/patch_network.rs:105-120 | the loop over removed components |
| `TemplateCodec.ReadList` | steel-registry/src/data_components/components/recursive_items.rs:575-585 | the loop over nested templates, the same |
| `TemplateCodec.StreamRoundTrip` | steel-registry/src/item_stack_template.rs:263-323 | from a fresh counter: written exactly up to 512 levels, read back exactly when sound, and the bytes of a deeper tree are rejected by the reader |
| `WorldsResolver.HashSeed` | steel-core/src/config.rs:792-804 | the wrapping loop computes the polynomial in 31 modulo 2^64 |
| `WorldsResolver.SeedFromConfig` | steel-core/src/config.rs:792-804 | the parsed number, else the hash, else the next random draw for an empty text |
| `WorldsMeaning.ResolvedSeed` | steel-core/src/config.rs:792-804 | every resolved world has the seed of the nearest text: the number it denotes, else the 64-bit value of the sum of its bytes times powers of 31, or a random draw when it is empty |
| `WorldsMeaning.NamesMean` | steel-core/src/config.rs:731-747 | domain and world names are nonempty strings over lower-case letters, digits and three signs, and a domain is not global or .. |
| `WorldsMeaning.PathMeans` | steel-core/src/config.rs:753-769 | a clean path is not empty, stays out of . and .., and has a root only when absolute |
| `WorldsMeaning.PlayerStorageMeans` | steel-core/src/config.rs:778-791 | players are stored by steel:disk or steel:ram without configuration |
| `WorldsMeaning.NetherTargetMeans` | steel-core/src/config.rs:585-679 | a Nether target is accepted exactly when it is another world of the domain |
| `WorldsMeaning.EndTargetMeans` | steel-core/src/config.rs:614-711 | an End target exactly when it is another world of the domain that is an End world, named by one that is not |
| `WorldsMeaning.ResolvedFields` | steel-core/src/config.rs:525-583 | every field of a resolved world comes from its declaration, with an accepted generator configuration and storage |
| `WorldsMeaning.ResolvedDomains` | steel-core/src/config.rs:454-523 | every domain has a valid name, worlds and an accepted storage, and lists the keys of its worlds in order |
| `WorldsMeaning.ResolvedRoot` | steel-core/src/config.rs:386-451 | path, player storage and root storage are as given or the defaults, and there is a domain and a world |
| `WorldsMeaning.SmallestIsEnough` | steel-core/src/config.rs:386-451 | a file with one world is accepted exactly with a clean path, valid names and an accepted generator: nothing more is asked |
| `WorldsResolver.ResolveTarget` | steel-core/src/config.rs:585-612 | a target is accepted exactly when it is a valid name other than the source |
| `WorldsResolver.ResolveWorld` | steel-core/src/config.rs:525-583 | succeeds exactly on well-formed worlds and yields the cascaded values |
| `WorldsResolver.CollectWorld` | steel-core/src/config.rs:485-513 | one round: fails exactly on a bad world, a repeated name or a second default |
| `WorldsResolver.CollectWorlds` | steel-core/src/config.rs:480-513 | the loop succeeds exactly when all worlds are well formed, names differ and at most one is the default |
| `WorldsResolver.IndexByName` | steel-core/src/config.rs:636-639 | the name index tells for exactly the declared names whether they are End worlds |
| `WorldsResolver.CheckPortals` | steel-core/src/config.rs:640-711 | accepts exactly the worlds whose targets are declared and whose End target is an End world |
| `WorldsResolver.ValidatePortals` | steel-core/src/config.rs:631-659 | accepts exactly the domains in which every world passes |
| `WorldsResolver.ResolveDomain` | steel-core/src/config.rs:454-523 | succeeds exactly on well-formed domains and yields their worlds in order |
| `WorldsResolver.GatherDomain` | steel-core/src/config.rs:420-436 | one round over the domains: fails exactly on a bad domain or a second default |
| `WorldsResolver.GatherDomains` | steel-core/src/config.rs:416-437 | the loop succeeds exactly when all domains are well formed and at most one is the default |
| `WorldsResolver.ValidateAndResolve` | steel-core/src/config.rs:386-451 | succeeds if and only if the file is well formed, and its result answers to the file |
| `WorldsResolution.Listed` | steel-core/src/config.rs:416-437 | every declared world is resolved, at its place in declaration order |
| `WorldsResolution.Located` | steel-core/src/config.rs:416-437 | every resolved world comes from one declared world |
| `WorldsResolution.KeysAreUnique` | steel-core/src/config.rs:454-523 | no two resolved worlds have the same key, across all domains |
| `WorldsResolution.NetherPortalsStayInside` | steel-core/src/config.rs:585-679 | a Nether target is another resolved world of the same domain |
| `WorldsResolution.EndPortalsLeadToTheEnd` | steel-core/src/config.rs:614-711 | an End target leads from a world that is not an End world to another world of the domain that is |
| `WorldsResolution.DefaultDomainIsTheOne` | steel-core/src/config.rs:420-446 | the default domain is exactly the one declared so |
| `WorldsResolution.DefaultWorldIsTheOne` | steel-core/src/config.rs:497-521 | the default world of a domain is exactly the one declared so, and it is resolved |
| `WorldsResolution.NearestOverrideWins` | steel-core/src/config.rs:525-583 | game mode, difficulty and storage of a world are the nearest that is set: world, domain, root, built-in default |
| `WorldsResolution.NearestSeedWins` | steel-core/src/config.rs:713-725 | the seed is that of the nearest text, and all worlds that inherit a random seed share one draw |
| `WorldsResolution.DrawsInOrder` | steel-core/src/config.rs:792-804 | the root, the domains and the worlds that ask for a random seed draw in the order of the file |
| `WorldsResolution.OwnDrawsDiffer` | steel-core/src/config.rs:792-804 | and never share a draw |
| `SignedHex.Increment` | steel-login/src/authentication.rs:125-131 | the carry loop adds one in place, dropping a carry out of the first byte |
| `SignedHex.MagnitudeValue` | steel-login/src/authentication.rs:124-131 | complementing and adding one negates the two's-complement value |
| `SignedHex.SignedIsTwosComplement` | steel-login/src/authentication.rs:106-145 | the value of bytes is congruent to their big-endian sum modulo 256^n and lies within the signed range of n bytes |
| `SignedHex.DigitListed` | steel-login/src/authentication.rs:133-138 | the digits are 0 to 9 and a to f |
| `SignedHex.TrimmedHex` | steel-login/src/authentication.rs:133-138 | the trimmed hexadecimal of any bytes is the digits of their big-endian value |
| `SignedHex.SignedBytesToHex` | steel-login/src/authentication.rs:112-145 | for byte strings of any length the text is what Java prints for the big-endian two's-complement value |
| `SignedHex.PrintedDenotes` | steel-login/src/authentication.rs:106-145 | the text has no leading zero and no minus zero and denotes the number |
| `SignedHex.CanonicalIsPrinted` | steel-login/src/authentication.rs:106-145 | conversely every such text is what its number prints as |
| `SignedHex.SignExtension` | steel-login/src/authentication.rs:106-145 | repeating the sign byte in front does not change the number |
| `SignedHex.PrintedAlikeIff` | steel-login/src/authentication.rs:106-145 | two byte strings print alike exactly when the longer repeats the sign of the shorter |
| `BlockEntities.BlockEntityTypeRegistry.constructor` | steel-registry/src/block_entity_type.rs:36-43 | starts empty and open |
| `BlockEntities.BlockEntityTypeRegistry.Register` | steel-registry/src/block_entity_type.rs:45-70 | succeeds exactly on an open registry with numbered blocks; lists the type and marks exactly its blocks |
| `BlockEntities.BlockEntityTypeRegistry.HasBlockEntity` | steel-registry/src/block_entity_type.rs:81-89 | reads the bit of the block's id; false for a block without id or past the end |
| `BlockEntities.MarkAllMarks` | steel-registry/src/block_entity_type.rs:57-67 | after the growing and setting, a bit is set exactly when it was or a listed block has that id |
| `BlockEntities.RegisterAgrees` | steel-registry/src/block_entity_type.rs:16-70 | registering a type keeps bitmap and scan in agreement when ids are distinct |
| `BlockEntities.NumberAgrees` | steel-registry/src/block_entity_type.rs:81-89 | numbering a new block keeps them in agreement |
| `BlockEntities.BitmapIsScan` | steel-registry/src/block_entity_type.rs:16-89 | after every run of block and type registrations the bitmap answers as a scan over the registered types, for every block |
| `BlockEntities.HasIffRegistered` | steel-registry/src/block_entity_type.rs:45-89 | after every run a block has a block entity exactly when a registration of the run listed it |
| `BlockEntities.RunGoesOn` | steel-registry/src/block_entity_type.rs:45-70 | registering goes on exactly while ids are new and types list numbered blocks |
| `Rounding.ShiftRoundsHalfUp` | steel-math/src/rounding.rs:17-23 | for all r and shifts s >= 0 the double shift is floor(r / 2^(s+1) + 1/2), in integers and in real numbers |
| `Rounding.FieldsAreMasked` | steel-math/src/rounding.rs:13-19 | the masks, the shift and the bitwise or select the exponent and the significand of IEEE 754 |
| `Rounding.RoundF32OfFields` | steel-math/src/rounding.rs:12-26 | so between exponents 118 and 149 the signed significand is shifted twice, and elsewhere the number is truncated |
| `Rounding.ShiftBranch` | steel-math/src/rounding.rs:17-23 | the shift branch rounds half up and stays within i32 |
| `Rounding.WholeBranch` | steel-math/src/rounding.rs:24-25 | from exponent 150 the number is whole and truncation is exact |
| `Rounding.TinyBranch` | steel-math/src/rounding.rs:24-25 | below exponent 118 the number is less than a half away from zero, subnormals included |
| `Rounding.RoundF32IsJavaRound` | steel-math/src/rounding.rs:12-26 | for all 2^32 bit patterns: floor(x + 1/2) clamped to i32 when finite, saturation at the infinities, zero for NaN |
| `Rounding.OneIsOne` | steel-math/src/rounding.rs:12-26 | the pattern of one denotes one |
| `Rounding.SignNegates` | steel-math/src/rounding.rs:12-26 | the sign bit negates |
| `Rounding.ExponentDoubles` | steel-math/src/rounding.rs:12-26 | one more in the exponent doubles |
| `Rounding.FractionAdds` | steel-math/src/rounding.rs:12-26 | the fraction adds that many parts of 2^23 |
| `Rounding.SubnormalsAreMultiples` | steel-math/src/rounding.rs:12-26 | the subnormals are the multiples of the smallest one |
| `Rounding.PatternKinds` | steel-math/src/rounding.rs:12-26 | which patterns are infinities, NaN and finite numbers |
| `Rounding.ClampMeans` | steel-math/src/rounding.rs:24-25 | the bounds of i32 in numbers |
| `Rounding.RoundF32Saturates` | steel-math/src/rounding.rs:24-25 | the infinities go to the bounds of i32 and NaN to zero |

## Left out

- AES-128, zlib (RFC 1950), RSA and SHA: functions passed in; of zlib only that decompression undoes compression.
- The play-state sender after `Upgrade`, sockets, task spawning, logging and kick messages: plumbing around the modelled steps.
- In-place update of the writer slot: `WriterSlot` and `Connection` are a state machine on values, so that steps of different tasks can interleave; locking appears as the `Taken` slot.
- WriterSlot.OfferValid: leaves out an inner writer that answers `Ok(0)` to a nonempty buffer under encryption; the encryptor then loses a byte, as `StreamEncryptor.Offer` states.
- Fairness and timing: a run may stop anywhere, and nothing says that a packet is ever sent.
- Login deadlines, keep-alives and the handling of the packets that drive `PrePlayState`.
- Scoreboard revisions wrap after 2^64 mutations in the code; the model counts without bound.
- Scoreboards of worlds that live only in memory (saving reports success without writing) and the TOML form of a scoreboard.
- Requirements other than those the evaluators decide are undecided leaves; the number of draws a live evaluation takes is modelled, their distribution is not.
- Enchantment values and effects, damage arithmetic and every other floating-point gameplay value: their rounding is a matter of its own.
- The NBT and JSON forms of profiles, items and templates, and component hashes. The hash a template caches is a function of its components and is not compared.
- Component values are compared by equality; a floating-point component holding NaN, which is not equal to itself, is outside the model.
- Builds that check overflow panic where `ItemStack.Split` wraps.
- The delimited template codec for untrusted clients (`read_delimited`) and container slots in NBT.
- BlockEntities.BlockEntityTypeRegistry.Register: says nothing about the state after a panic, which ends startup.
- Freezing and the key lookup of registries, and the state tables that block registration fills.
- Parsing of `worlds.toml`, of numbers and of paths; error texts.
- The data registries, enum tables and derive macros: finite tables and token streams.
