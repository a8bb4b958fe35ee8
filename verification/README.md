# Verified model of mccpp, a Minecraft 1.19.3 client

This project models the parts of the client that carry its logic, and proves what they promise.
Objects that the program updates in place are classes here, with the same fields and loops; each
method is proved against a function of the bytes or of the old state, and the laws of the program
are lemmas about those functions. `dafny verify dfyconfig.toml` checks everything.

* **Receiving and sending** (`VarInt`, `RingBuffer`, `Packet`, `Framing`, `Client`, `Session`,
  `Conversation`, `Fields`, `Position`). The receiving coroutine is a state machine over a ring buffer with one
  outstanding socket read. The main result is that every way in which the socket can cut the
  stream dispatches the packets, reaches the session and ends with the error that a single
  left-to-right reading of the concatenated bytes gives; and that packets sent, in whatever parts
  the socket accepts and delivers them, are all dispatched in order exactly if the handlers accept
  them. On top of that: the life of a session over every run; and for every packet that the client
  handles, written by an encoder, that it is read completely and has exactly its effect, down to the
  bytes of the replies.
* **Resources and models** (`Resources`, `Models`). Memoised depth-first construction with a list
  of the keys under construction detects a cycle exactly when one is ahead; recursive inheritance
  of block models, run in any order over mutable objects, ends in the same state, and ends at all
  exactly when no model is its own ancestor.
* **NBT** (`Nbt`): the recursive-descent parser inverts an encoder, consumes exactly what was
  encoded, and returns only trees that have an encoding.
* **Block states** (`MixedRadix`, `BlockTables`, `BlockStates`, `Variants`, `VariantCounts`,
  `VariantLabels`): the bit-packed tables that the generator writes, the iterator that decodes a
  state by division, and the variant matcher on top, which matches as many states as there are
  combinations of what the variant leaves open, and those that the generator labels so exactly if
  no boolean is named.
* **Chunk sections** (`ExtractBits`, `Palette`, `Sections`): fields that straddle 64-bit words are
  the digits of one large number, and all of them together are the words again; sections are read
  as they were written, and the entries packed into them come back.
* **Chunk meshes** (`Mesh`, `MeshVolume`): a discrete divergence theorem for the emitted faces, of
  which equal counts of opposite faces and the enclosed volume are instances.
* **The virtual file tree** (`Vfs`, `TreeCursor`, `TreeOnDisk`, `VfsTree`, `Paths`): the tree is
  rebuilt from a linear stream of entries by a cursor and an iterator that keep their stacks in
  step; looking up a path inverts generating it exactly for the nodes that no earlier sibling
  shadows; and the path that reading a node opens is that of the file it came from.

An assertion failure or `abort` of the program is an outcome of its own (`AssertFailed`,
`Aborted`), different from the exceptions it throws.

## Where the code differs from what is said about it

The model follows the code, and the lemmas named say what holds instead.

* `COUNT_MASK` has four bits (src/data/block.hh:11), the layout comment and the generator's
  assertion five (src/data/block_impl.hh:14, generator/block_states.py:111). A count is read back
  exactly if it is below 16; 16 is read as 0 (`FlagsRead`).
* The generator insists on booleans in the order true, false (generator/block_states.py:49-50),
  the matcher takes index 1 for "true" (src/main.cc:57). A variant with legal values selects the
  states that the generator labels so exactly if it names no boolean property of the block, and
  none of them if it names one (`SelectsLabelledIff`); `LampIsFlipped` is an instance. The counting
  results hold either way.
* The comment on strings allows the reader four bytes for each character; the writer does
  (src/proto/packet.cc:75), the reader counts bytes (src/proto/packet.cc:214). Fields are recovered
  exactly if every string is within its limit in bytes (`FieldsRoundTrip`).
* `generate_path` starts with a slash, because the root's name is empty (src/vfs/vfs.cc:9-16);
  `find_file` finds nothing by such a path, unless it is the root's empty one (`PathLookup`).
* `split_string` ends a loop early at an empty part only if nothing remains: one or two empty
  parts at the end of a path are ignored, none elsewhere (`VisitedIsTrimmed`).
* `queue_send` accepts an empty body, which a receiver refuses (`ReceiveInvertsSend`).
* Storages are not merged: a file of a later storage under a name that exists already is added,
  but not found (`BuildTree`, `FoundIffFirst`).

## Model

| member | source | states |
|---|---|---|
| VarInt.WriteImpl | src/proto/varint.hh:20-35 | the loop of the writer emits the base-128 groups of the two's-complement word, for any width |
| Bytes.OrIsSum | src/proto/varint.hh:49 | numbers without a common bit are put together by `or` as by adding them; this is how the readers and writers of varints, the table words, extracted fields and positions are related to arithmetic |
| VarInt.ContinueBit | src/proto/varint.hh:32 | the continuation bit is added to a group |
| VarInt.StepFits | src/proto/varint.hh:49-57 | a group that is not the last is or-ed in without loss |
| VarInt.StepLast | src/proto/varint.hh:49-57 | the last group is cut to the width, and what results is the sum modulo it |
| VarInt.ReadExact | src/proto/varint.hh:38-61 | the reader accepts exactly the inputs with a terminating byte within 5 or 10 bytes and returns the base-128 sum modulo 2^32 or 2^64, rejects exactly those with that many continuation bytes, and otherwise waits |
| VarInt.ReadAccepts | src/proto/varint.hh:38-61 | every input that ends within the bound is accepted with its exact length |
| VarInt.WriteMeans | src/proto/varint.hh:20-35 | what is written ends at its last byte and means the number |
| VarInt.WriteFits | src/proto/varint.hh:20-35 | at most 5 bytes for 32 bits and 10 for 64 |
| VarInt.RoundTrip | src/proto/varint.hh:20-61 | reading inverts writing for every signed 32- and 64-bit number and any suffix, consuming exactly what was written |
| VarInt.Minimal | src/proto/varint.hh:20-61 | no accepted input is shorter than the written form of its value |
| VarInt.PrefixFree | src/proto/varint.hh:20-35 | no written form is a prefix of another |
| Ring.RingBuffer.ReadSpansAreContents | src/utility/ring_buffer.hh:34-46 | the two read spans, one after the other, are the queue |
| Ring.RingBuffer.WindowsPartition | src/utility/ring_buffer.hh:34-60 | every cell is in exactly one of the four spans, for any capacity and any state |
| Ring.RingBuffer.Front | src/utility/ring_buffer.hh:29-32 | the first byte of the queue, or the failed assertion when there is none |
| Ring.RingBuffer.Erase | src/utility/ring_buffer.hh:67-70 | drops exactly the first n bytes of the queue, or fails its assertion and changes nothing |
| Ring.RingBuffer.MarkWrite | src/utility/ring_buffer.hh:62-65 | appends exactly the bytes in the first n cells of the write spans, or fails its assertion |
| Ring.Scatter | src/proto/tcp_client.cc:51-63 | a socket read that fills the front span and then the back span puts its bytes in the cells that will be appended, and disturbs no queued byte |
| Packet.PacketReader.ReadByte | src/proto/packet.cc:91-95 | within the budget; later packets' bytes untouched; the assertion fails on an empty budget |
| Packet.PacketReader.ReadVarInt | src/proto/packet.cc:97-99 | the imperative loop over the queue reads what `Wire.ReadVarInt` says of the bytes in the budget |
| Packet.PacketReader.Discard | src/proto/packet.cc:83-89 | drops exactly n bytes of the budget, or fails its assertion |
| Packet.PacketReader.ReadWord | src/proto/packet.cc:163-172 | the accumulating loop gives the big-endian value; also for the byte-wise reads of floats |
| Packet.PacketReader.ReadInt | src/proto/packet.cc:163-172 | and its two's-complement value after the cast |
| Packet.PacketReader.ReadBool | src/proto/packet.cc:101-110 | only 0 and 1 are booleans |
| Packet.PacketReader.ReadString | src/proto/packet.cc:195-219 | a length that is not negative and not over the limit, and that many bytes; each failure with its error |
| Wire.IntRoundTrip | src/proto/packet.cc:38-52 | reading inverts writing for every signed integer of any byte width |
| Wire.VarIntErrors | src/proto/varint.hh:54-57 | five continuation bytes are an invalid varint; fewer, with the packet at its end, fail the assertion |
| Wire.StringErrors | src/proto/packet.cc:208-218 | a negative length, one over the limit and one over the packet's end each fail in their own way |
| Wire.BoolErrors | src/proto/packet.cc:101-110 | 1 is true, 0 is false, other bytes are an error |
| Fields.BackwardsIsBigEndian | src/proto/packet.cc:54-61 | the bytes of a word in memory, inserted backwards, are its big-endian bytes |
| Fields.PacketWriter.WriteWord | src/proto/packet.cc:27-61 | appends the big-endian bytes of a word |
| Fields.PacketWriter.WriteText | src/proto/packet.cc:63-81 | length and bytes, or the encode error and nothing written when there are more than four bytes for each allowed character |
| Fields.PacketWriter.Write | src/proto/packet.cc:9-81 | the effect of any one writer call |
| Fields.ReadFrom | src/proto/packet.cc:91-219 | the matching reader call on the queue of received bytes, within the packet's budget |
| Fields.FieldRoundTrip | src/proto/packet.cc:9-219 | a written field is read back and exactly its bytes are consumed, or it is a string over its limit in bytes and is refused |
| Fields.FieldsRoundTrip | src/proto/packet.cc:9-219 | any sequence of writer calls is recovered by the same sequence of reader calls exactly if every string is within its limit in bytes |
| BlockPosition.BranchesAgree | src/proto/packet.hh:44-57 | both branches of sign_extend give the signed value of the field, for every width from 1 to 32 |
| BlockPosition.RawIsSum | src/proto/packet.hh:31-35 | the or-ed fields have no bit in common |
| BlockPosition.RawInverts | src/proto/packet.hh:22-35 | every 64-bit word is the word of its position |
| BlockPosition.PositionInverts | src/proto/packet.hh:22-35 | a position comes back from its word exactly if its coordinates fit 26, 12 and 26 signed bits |
| Framing.RunKeepsFuture | src/proto/client.cc:67-89 | running the coroutine to its next suspension does not change what will have been observed when any further bytes have arrived |
| Framing.FragmentationIndependence | src/proto/client.cc:67-89 | for every stream and every way to cut it, the packets dispatched, the session and the first error are those of the left-to-right deframing of the concatenated bytes, for any handlers that read only their packet |
| Framing.SplitsAgree | src/proto/client.cc:67-89 | two ways to cut the same bytes cannot be told apart |
| Framing.MoreBytesOnlyAdd | src/proto/client.cc:67-89 | further bytes only add packets, and an error is final |
| Framing.RoomToRead | src/proto/tcp_client.cc:14-30 | at every suspension that waits for bytes the buffer has room for one more, so a read can always complete |
| Framing.ReceiveInvertsSend | src/proto/client.cc:27-36 | deframing the frames of any queued bodies hands exactly those bodies to the handler, in order; an empty body stops the receiver |
| Framing.LengthChecked | src/proto/client.cc:69-75 | the lengths from 1 to the largest are taken and wait for their body, others end with the error for their side |
| Framing.LargestLength | src/proto/client.cc:28-31 | the largest packet length is the largest number whose varint has at most three bytes |
| Framing.EndToEnd | src/proto/client.cc:27-89 | packets framed by the one side and received in any pieces have the effect of dispatching them one after the other, for any handlers; all are dispatched, in order, and the receiver waits for more exactly if the handlers accept them |
| Framing.DispatchedIffAccepted | src/proto/client.cc:83-87 | what is dispatched is a prefix of what was sent, and all of it exactly if every handler returns and leaves no byte |
| Framing.DeframedSession | src/proto/client.cc:83-84 | the session of a run is that of the packets dispatched |
| Client.Client.WriteFlush | src/proto/tcp_client.cc:36-42 | whatever positive parts the socket accepts, it gets exactly the buffer, in order, and flushing ends |
| Client.Client.QueueSend | src/proto/client.cc:27-36 | one frame on the wire, or the encode error and nothing on the wire |
| Client.Client.Send | src/proto/client.cc:27-36 | keeps: the wire is exactly the frames of the packets sent, in order |
| Client.Client.LengthByte | src/proto/tcp_client.hh:16-24 | one awaited byte is one step of the state machine, and it never pops an empty ring |
| Client.Client.Body | src/proto/client.cc:77-87 | one complete body is one step of the state machine |
| Client.Client.OnPacketReceived | src/client/handlers.cc:38-60 | the dispatch by state and id and the handlers' loops over the reader do what the pure handler says, including which bytes they leave; the rows of `Conversation` say what that is |
| Client.ReadProfileFrom | src/client/handlers/login/game_profile_packet.cc:13-23 | the counted loop over the properties, with every error |
| Client.Client.ResumeOnReadable | src/proto/tcp_client.cc:48-53 | its assertion holds, the spans given to the read are the whole free part of the buffer and are not empty |
| Client.Client.Resume | src/proto/client.cc:67-89 | the coroutine runs to its next suspension, terminates on the way, and waits there with exactly one read outstanding |
| Client.Client.OnReadCompleted | src/proto/tcp_client.cc:63-69 | a completed read is one delivery of the state machine; afterwards there is again one outstanding read or the error is rethrown |
| Client.Client.OnTcpConnect | src/client/client.cc:17-30 | the coroutine suspends at once, so nothing is dispatched in HANDSHAKING; then the two packets are on the wire and the state is LOGIN |
| Client.Connection | src/proto/tcp_client.cc:48-72 | a whole connection, from on_tcp_connect over any reads that fit, observes the deframing of what it took, its wire holds the frames of what it sent, and it only stops at an error or at a read that cannot happen |
| Session.StateIsPlayIffLoggedIn | src/client/handlers/login/game_profile_packet.cc:13-25 | from LOGIN the state is PLAY exactly once a game profile was read completely |
| Session.StateNeverGoesBack | src/client/handlers/login/game_profile_packet.cc:25 | once in PLAY the state stays, whatever is dispatched |
| Session.RepliesEcho | src/client/handlers/play/keep_alive_packet.cc:15-18 | the keep-alive replies are exactly the ids of the keep-alive packets read completely in PLAY, in order |
| Session.EveryRun | src/client/handlers.cc:38-60 | both hold of every stream cut in any way |
| Session.ClientEndToEnd | src/client/handlers.cc:38-60 | for this client: packets that its handlers accept, in whatever pieces they arrive, are all dispatched in order and leave the session of those packets, keep-alive packets answered |
| Session.ReplyEchoesBytes | src/client/handlers/play/keep_alive_packet.cc:15-18 | the body of a keep-alive reply is its own id and the eight bytes that were read |
| Session.KeepAliveConversation | src/client/handlers/play/keep_alive_packet.cc:15-18 | keep-alive packets received in PLAY in any pieces are all accepted, and the bodies queued for them carry their bytes in order |
| Conversation.ProfileRoundTrip | src/client/handlers/login/game_profile_packet.cc:13-23 | reading a profile inverts writing it, with any properties, signed or not, and leaves what follows; a negative count is that of no properties |
| Conversation.PacketHandled | src/client/handlers.cc:12-60 | every game profile, custom query, keep-alive, custom payload and discarded packet that can be written is read to its last byte, whatever data it carries, and has exactly its effect on the state and on what is queued |
| Conversation.TrailingDataLeft | src/proto/client.cc:85-87 | data after a game profile or a keep-alive packet is left, all of it |
| Conversation.Unreadable | src/client/handlers.cc:38-60 | a packet that cannot be read throws the reader's error, with the session as it was |
| Conversation.Refused | src/client/handlers.cc:57-59 | an id that is not in the table is a protocol error, and the unsupported handlers abort |
| Conversation.ReplyBodies | src/client/handlers/login/custom_query_packet.cc:13-17 | the reply to a custom query is read as the packet's id, the message id and a false byte, and the reply to a keep-alive packet as its id and the number received, with nothing left |
| Conversation.ServerConversation | src/proto/client.cc:67-89 | for any sequence of such packets, each known in the state that those before lead to, in whatever pieces they arrive: all are dispatched in order, the client waits for more, and its session is exactly the effect of the packets |
| Nbt.Create | src/nbt.cc:26-43 | every successful creation consumes at least one byte, so parsing ends on every input |
| Nbt.ParseInvertsEncode | src/nbt.cc:26-187 | parsing the encoding of a well-formed tree gives the tree and leaves exactly the suffix |
| Nbt.ItemsRoundTrip | src/nbt.cc:138-147 | the same for the items of a list |
| Nbt.EntriesRoundTrip | src/nbt.cc:157-167 | the same for the entries of a compound |
| Nbt.IntsRoundTrip | src/nbt.cc:169-187 | the same for integer arrays |
| Nbt.ParsedIsWellFormed | src/nbt.cc:26-187 | whatever the input, a tree that is returned has the type asked for and is well formed |
| Nbt.Reparse | src/nbt.cc:26-187 | encoding what was parsed and parsing it again gives the same tree |
| Nbt.FileRoundTrip | src/nbt.cc:189-199 | the same for the named root |
| Nbt.EmptyFile | src/nbt.cc:190-194 | a file that starts with an end tag is empty, and what follows is left |
| Nbt.NoItems | src/nbt.cc:138-187 | a length of zero or less is that of an empty list or array, of whatever item type |
| Nbt.NotCreated | src/nbt.cc:28-42 | an end tag where a tag must be aborts; byte arrays and unknown types are parse errors |
| NbtReader.CreateTag | src/nbt.cc:26-43 | the constructors that consume the reader in place do what the functions say |
| NbtReader.ReadItemsFrom | src/nbt.cc:143-146 | the loop of the list constructor |
| NbtReader.ReadEntriesFrom | src/nbt.cc:157-167 | the loop of the compound constructor |
| NbtReader.ReadIntsFrom | src/nbt.cc:169-187 | the loops of the array constructors |
| NbtReader.ReadFileFrom | src/nbt.cc:189-199 | the root constructor |
| Resources.Manager.GetInternal | src/resource/resource.cc:46-75 | over any finite dependencies it throws exactly when a cycle is ahead through keys that are not cached, returns nothing exactly without a factory and a cached entry; cached entries are never replaced, the list under construction is restored on every way out; after a return exactly the reachable keys have been added, and each key added has its own object, made of the cached objects of its dependencies in order; the object returned is the cached one of the key |
| Resources.Manager.Construct | src/resource/resource.cc:67-74 | the same for the part after the checks; its assertion that the entry is new never fails, the list has no key twice, and what is cached and returned is what the factory made for the key |
| Resources.Manager.Insert | src/resource/resource.cc:72-73 | one entry more, with the object of its key, and the key off the list |
| Resources.Manager.Create | src/resource/resource.hh:73-75 | a constructor that gets its dependencies one after the other gets the cached objects |
| Resources.OrderDoesNotMatter | src/resource/resource.cc:46-75 | whether a cycle is detected and what is constructed does not depend on the order in which constructors get their dependencies |
| Resources.NoCycleAhead | src/resource/resource.cc:67-74 | a construction that returns had no cycle ahead |
| Models.ElementsAreNearest | src/resource/model.cc:167-188 | the elements are those of the nearest ancestor-or-self that has any |
| Models.NoElementsAnywhere | src/resource/model.cc:179-180 | and none if there is none |
| Models.FlagIsOfTheTop | src/resource/model.cc:182-184 | the ambient-occlusion flag is that of the top of the chain, or the sentinel's if the top names a parent that is missing |
| Models.ReturnsIffAcyclic | src/resource/model.cc:167-188 | finalize returns exactly if no model occurs twice among a model and its ancestors, and then nests no deeper than there are models |
| Models.RepeatNeverEnds | src/resource/model.cc:174-176 | a model that is its own ancestor recurses for ever |
| ModelLoading.ModelObject.Finalize | src/resource/model.cc:167-188 | on the heap: the whole chain ends finalised with its inherited values, models already finalised are not touched again, and the recursion ends |
| ModelLoading.Manager.FinalizeAll | src/resource/resource.cc:35-38 | in whatever order the models are visited, each ends with its inherited values |
| MixedRadix.EveryChoiceOnce | src/data/block.hh:137-145 | every combination of values has a number, and decodes from it |
| MixedRadix.IndexInverts | src/data/block.hh:137-145 | and only one |
| MixedRadix.OrderIsLexicographic | generator/block_states.py:76-83 | the numbering is the lexicographic order, the last property varying fastest |
| MixedRadix.DecodeIsState | src/data/block.hh:137-145 | taking remainder and quotient by each count from the last property on gives the combination in reverse |
| MixedRadix.CountIsProduct | src/data/block.hh:137-145 | accepting property by property accepts the product of the numbers of accepted values |
| BlockTables.WriteProperties | generator/block_states.py:93-128 | the loop with its running offset writes the tables, and finishes exactly if every offset fits eight bits and every count five |
| BlockTables.WriteBlocks | generator/block_states.py:148-162 | the same for the block table and the property map, with eleven and three bits |
| BlockTables.FlagsAreSums | generator/block_states.py:96-112 | the or-ed parts of a property word have no bit in common |
| BlockTables.FlagsRead | src/data/block.hh:26-52 | kind and offset come back for every property; the count exactly if it is below 16, and 16 as 0 |
| BlockTables.EnumLookup | src/data/block.hh:37-48 | looking up an enum value through the tables gives the string the generator was given |
| BlockTables.ViewIsReversed | src/data/block.hh:93-108 | a block's view of the property map is its properties in reverse |
| BlockStates.StateIterator.Advance | src/data/block.hh:137-141 | the iterator's division and step |
| BlockStates.WalkIsDecode | src/data/block.hh:130-154 | what the iterator yields is the mixed-radix decoding |
| BlockStates.CountsReversed | src/data/block.hh:93-111 | the counts along a view are the generator's, in reverse |
| BlockStates.TablesAndIteratorAgree | src/data/block.hh:130-168 | end to end: iterating the j-th state of a block yields its properties from the last to the first with the digits of the j-th combination in lexicographic order |
| BlockStates.FirstStateEntry | generator/block_states.py:140-142 | with consecutive states, a block's first state follows those of the blocks before |
| BlockStates.StateBlockEntry | generator/block_states.py:166-169 | every state is in the table under the id of its block |
| Variants.ParseVariant | src/main.cc:15-30 | the loop that shrinks the view parses the pairs, or fails its assertion |
| Variants.ParseInvertsFormat | src/main.cc:15-30 | parsing inverts writing pairs out, for keys and values without the separators |
| Variants.ParsesPieces | src/main.cc:15-30 | any string is parsed to the pairs of its pieces between commas, each split at its first '=', one empty piece at the end aside; the assertion fails exactly if a piece has no '=' |
| Variants.ParseUint | src/main.cc:32-40 | the loop in wrapping 32-bit arithmetic gives the decimal number of the string modulo 2^32, and throws exactly if there is anything but digits in it |
| Text.DecimalOfOneMore | src/main.cc:37 | one more digit makes ten times the number and the digit, for numbers defined by the places of their digits |
| Variants.MatchBlockState | src/main.cc:42-69 | the loop over a state's entries ends as the first entry that does not pass, and passes if there is none |
| VariantCounts.FirstOfVerdict | src/main.cc:44-68 | a verdict other than passing is that of the first entry that does not pass |
| VariantCounts.VerdictOfFirst | src/main.cc:44-68 | and the other way round |
| VariantCounts.VerdictExactly | src/main.cc:42-69 | on a state of a block: it passes exactly if all properties pass, and is rejected, or throws, exactly if the last property that does not pass does |
| Variants.LookupIsFirst | src/main.cc:46-48 | of several pairs with a key the first counts |
| Variants.LookupFails | src/main.cc:49-51 | and none is found exactly if there is none |
| VariantCounts.CheckAgrees | src/main.cc:44-67 | on every property, the test through the bit-packed tables gives the verdict of the test on the property that the tables were made from; booleans are labelled as the matcher labels them |
| VariantCounts.MatchIffAccepted | src/main.cc:42-69 | a state matches exactly if every property of its combination passes |
| VariantCounts.MatchesAreOpenStates | src/main.cc:42-69 | a variant with legal values matches exactly the product of the counts of the properties it leaves open |
| VariantCounts.FullVariantMatchesOne | src/main.cc:42-69 | one that names every property matches exactly one state |
| VariantLabels.VerdictsAgree | src/main.cc:52-66 | on one property the matcher goes by the generator's label exactly if the variant does not name a boolean as "true" or "false" |
| VariantLabels.SelectsLabelledIff | src/main.cc:42-69 | for a variant with legal values, the states of a block that match are those that the generator labels so exactly if the variant names no boolean property of the block; if it names one, no matching state is labelled so |
| VariantLabels.LampIsFlipped | src/main.cc:57 | a block with one boolean property: the state that the generator labels true is the one that "true" does not select |
| VariantCounts.MatchBlockStates | src/main.cc:71-78 | for a block that is not the last, the scan ends at its last state; it returns in ascending order exactly the states of which every property passes, and throws exactly if the matcher throws on one of its states, which it never does for a variant with legal values |
| VariantCounts.LegalNeverThrows | src/main.cc:42-69 | with legal values no state makes the matcher throw |
| ExtractBits.ShiftAndMask | src/utility/extract_bits.hh:13-14 | shifting right and masking selects a run of bits |
| ExtractBits.ExtractIsField | src/utility/extract_bits.hh:9-21 | the field is the value of its bits in the concatenation of the words, straddling or not, and whatever an undefined shift by 64 gives |
| ExtractBits.FieldsFillWords | src/world/chunk.cc:48-61 | 4096 fields fill their words exactly, every read stays within one extra word, and the last one needs it |
| ExtractBits.ExtractAll | src/world/chunk.cc:58-61 | the loop extracts every field, with every index in range |
| ExtractBits.PackingInvertsExtraction | src/world/chunk.cc:58-61 | the fields side by side are the original bits |
| ExtractBits.FieldIsDigit | src/utility/extract_bits.hh:9-21 | with the words as one big-endian number N, the i-th field is N / 2^(total - (i+1)*bits) mod 2^bits |
| Palette.LoadPaletted | src/world/chunk.cc:36-54 | the two counted loops, with every error |
| Palette.LoadBlocks | src/world/chunk.cc:20-66 | the three formats, as `ReadSection` reads them; for a palette, the 4096 entries are the fields of the words, and the words again when packed |
| Sections.SectionRoundTrip | src/world/chunk.cc:31-54 | for every width byte from 1 to 8, any palette and as many words as 4096 entries of that width, at least 4, fill: the section is read back with this width, and what follows is left |
| Sections.OtherSections | src/world/chunk.cc:21-39 | the format with one block is read back; of a format that is not read only the first byte is taken; a negative palette length is an error |
| Sections.EntriesComeBack | src/world/chunk.cc:58-61 | entries of a width packed into words are exactly the ones whose fields are extracted |
| Mesh.IndexInverts | src/world/chunk.cc:157 | the block index is a bijection on the chunk's positions |
| Mesh.PositionInverts | src/world/chunk.cc:157 | the other way round |
| Mesh.CornersOfUnitSquare | src/world/chunk.cc:81-95 | for each direction, the four corners are the corners of the unit square around the face's centre |
| Mesh.TrianglesFaceOutward | src/world/chunk.cc:100-106 | both triangles of a face turn counter-clockwise around the outward normal and have half its area each |
| Mesh.VertexOfFace | src/world/chunk.cc:112-145 | for all six directions: each vertex of a face has the face's direction as its normal, lies at one corner, and has the texture corner that belongs there: upright and not mirrored on the sides, along x and z on top, and with z turned round at the bottom |
| Mesh.WholeTexture | src/world/chunk.cc:115-132 | the four corners of every face get the four different corners of the texture |
| Mesh.SideTexturesUpright | src/world/chunk.cc:115-132 | on the four sides the texture is upright and not mirrored |
| Mesh.FlatTexturesAligned | src/world/chunk.cc:121-132 | on top the texture follows x and z, at the bottom x and the opposite of z |
| Emission.QuadsExact | src/world/chunk.cc:148-179 | each pair of a solid block and a direction with air or nothing beyond is emitted exactly once, and nothing else is |
| Emission.Buffers.GenerateFace | src/world/chunk.cc:76-146 | appends the four vertices and six indices of one face; the assertion on the normal is in the body and holds |
| Emission.EmittedVertex | src/world/chunk.cc:142-145 | the vertices in the buffer are those of the faces, four by four |
| Emission.Buffers.GenerateBlock | src/world/chunk.cc:164-175 | the faces of one block |
| Emission.GenerateVertices | src/world/chunk.cc:148-179 | the three loops emit exactly the quads of the chunk, in order |
| Divergence.DivergenceTheorem | src/world/chunk.cc:148-179 | for every chunk and every integer flow, what passes out through the emitted faces is what the flow creates in the solid blocks |
| Divergence.OppositeFacesBalance | src/world/chunk.cc:148-179 | along each axis as many faces look one way as the other |
| Divergence.PlanesSumToBlocks | src/world/chunk.cc:148-179 | along each axis, the signed sum of the coordinates of the faces' planes is the number of solid blocks, in half blocks |
| Divergence.QuadVolumeIsFlow | src/world/chunk.cc:76-106 | the volume that a face's two triangles span with the origin is the flow across its plane |
| Divergence.EnclosedVolumeIsBlockCount | src/world/chunk.cc:148-179 | the triangles in the index buffer enclose exactly the volume of the solid blocks |
| HostStorage.EraseInvertsAppend | src/vfs/host.cc:72-81 | erasing from the last slash takes off exactly the name that was added |
| HostStorage.HostIterator.ReadEntry | src/vfs/host.cc:31-39 | the next entry that is neither "." nor ".." |
| HostStorage.RealCounts | src/vfs/host.cc:33-37 | "." and ".." are left out of a listing, and every other entry stays as often as it is listed |
| HostStorage.HostIterator.Next | src/vfs/host.cc:67-87 | the next entry of the innermost directory, which is then opened if it is one, or its end, at which it is closed; the path is always that of the innermost open directory, and opening never fails |
| TreeCursor.EntryStep | src/vfs/vfs.cc:29-34 | appending an entry at the cursor and taking it off the stream leaves what the tree will finally be unchanged |
| TreeCursor.CloseStep | src/vfs/vfs.cc:24-28 | so does going up at the end of a directory |
| TreeCursor.WorkGetsLess | src/vfs/vfs.cc:23-36 | every call of the iterator brings the loop nearer to its end |
| TreeCursor.TreesKeepItems | src/vfs/vfs.cc:21-37 | the listing of a storage, files, directories and their order, can be read off the tree that it becomes |
| VfsTree.TreeNode.GeneratePath | src/vfs/vfs.cc:9-16 | the loop up the parents joins the names from the root down |
| VfsTree.TreeNode.Find | src/vfs/vfs.hh:49-55 | an entry with the name, before which no other has it, or nothing |
| VfsTree.FirstIsFirst | src/vfs/vfs.hh:49-55 | what lookups follow is the first entry with the name |
| VfsTree.TreeNode.EmplaceBack | src/vfs/vfs.hh:57-59 | a new last entry that has this node as its parent |
| VfsTree.Vfs.AddEntry | src/vfs/vfs.cc:29-34 | on the heap: one entry more at the current node, all other nodes as they were, the links and the values of all nodes consistent |
| VfsTree.Vfs.AddStorage | src/vfs/vfs.cc:21-37 | the loop rebuilds the storage's tree below the root in the same order, and ends exactly when the iterator has closed the storage's root; its invariant is that the iterator has as many directories open as the cursor is deep plus one, so next is never called without one |
| VfsTree.Vfs.BuildTree | src/vfs/vfs.cc:18-38 | all storages one after the other, each file tagged with its storage |
| VfsTree.Vfs.FindFile | src/vfs/vfs.cc:81-91 | the loop over the parts follows the first entries with their names |
| VfsTree.Vfs.FoundHasNames | src/vfs/vfs.cc:81-91 | whatever is found has the names looked up |
| VfsTree.Vfs.FoundIffFirst | src/vfs/vfs.cc:81-91 | a node is found by its names exactly if no earlier sibling of it or of an ancestor has the same name |
| VfsTree.Vfs.NothingShadowed | src/vfs/vfs.hh:49-55 | where siblings have different names this holds of every node |
| VfsTree.Vfs.FindsExactly | src/vfs/vfs.cc:81-91 | find_file finds a node exactly by the paths whose parts are its names |
| VfsTree.Vfs.PathLookup | src/vfs/vfs.cc:9-91 | find_file inverts generate_path once the leading slash is dropped, exactly for the nodes not shadowed; with the slash it finds nothing but the root |
| TreeOnDisk.AllTreesPlaced | src/vfs/vfs.cc:18-38 | in the trees that storages become, every tagged node is, by its place in the tree, a file of its storage on disk |
| VfsTree.Vfs.PathOfFile | src/vfs/vfs.cc:119-131 | in a built tree, the root of a node's storage and the node's generated path together are the path of a file on disk, and the generated path finds the node again unless it is shadowed |
| VfsTree.Vfs.FindRoot | src/vfs/vfs.cc:112-117 | the parents of every node lead to the root |
| VfsTree.Vfs.ReadFile | src/vfs/vfs.cc:119-131 | reading a node opens the path of a file of its storage on disk, or nothing exactly if the node has no storage; its assertion holds |
| VfsTree.Load | src/vfs/vfs.cc:18-38 | a new file system over any storages is such a tree |
| Paths.SplitIterator.Advance | src/vfs/vfs.cc:54-64 | one step of the part and the remainder |
| Paths.VisitedIsTrimmed | src/vfs/vfs.cc:40-79 | the parts visited are all those between the slashes, except for one or two empty ones at the end |
| Paths.VisitedInvertsJoin | src/vfs/vfs.cc:40-79 | splitting inverts joining non-empty names without slashes |

## Left out

* Everything outside the files cited: rendering, input, JSON, images, logging, application wiring,
  the vendored noise generator, and `generate_model_mesh`.
* Socket errors and end of file in `resume_on_readable`: a read completes with at least one byte,
  or not at all. The program has no behaviour of its own there yet.
* Handlers other than those of the game profile, keep-alive, custom query and custom payload
  packets, and the discarding default, are one arbitrary behaviour that depends on the id and the
  bytes of the packet and may queue packets; the numbering of packets is an arbitrary finite table.
* Encryption and compression, whose handlers abort.
* UTF-8: strings are bytes, as in the code, which has the count of code points as a to-do.
* Overflow of the 64-bit counters of the ring buffer, whose capacity does not divide 2^64: they
  are natural numbers.
* Widths of the table indices: state, block and property ids are natural numbers, so at most
  65536 states and 256 properties are assumed.
* Floating point in the mesh: positions are whole numbers of half blocks, in which they are exact,
  texture coordinates are 0 or 1; colours are not modelled. NBT floats are their bit patterns.
* `load_biomes` and the global palette, which do nothing yet, and `chunk_column`, whose count is
  never initialised.
* Allocation: `reserve` does not fail, whatever length a packet announces.
- BlockStates.TablesAndIteratorAgree: the states of a block are taken to be all combinations of its
  property values in lexicographic order with consecutive ids, and the id of a block to be its
  position in the tables, as the game's data has them; the generator checks neither.
- VariantCounts.MatchBlockStates: for the last block of the table the scan reads past the end, so
  the block is required not to be the last.
- ExtractBits.ExtractIsField: for 1 to 8 bits, since the code shifts an int to make its masks.
- Resources.Manager.GetInternal: a constructor gets its dependencies from a fixed list and throws
  only when one of them does; other exceptions of constructors, the load flags and the types
  beside the keys are not modelled.
- VfsTree.Vfs.ReadFile: what is in the file; and reading by a path instead of a node, whose path has
  no slash in front and relies on the one that the root of a storage ends in
  (src/vfs/host.hh:9-13).
- VfsTree.Vfs.BuildTree: the directories on disk do not change while they are read, can all be
  opened, and have no names with slashes.
- HostStorage.HostIterator.Next: errors of the operating system are not modelled.
