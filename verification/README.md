# NDK host tools: a verified model

A Dafny model of the logic in the host tools and test-bench library of the NDK FPGA
repository, with proofs of what that logic promises.

- **Frame player and recorder** (`MfbStream`, `FrameLayout`, `FramePlayer`,
  `PlayerConfigurator`, `FrameRecorder`, `RecorderReader`, `CapturedWords`,
  `RecorderStream`, `RecorderExactness`, `MfbRoundTrip`, `LastWordGap`, `SkippedSlots`,
  `FrameCount`, `FrameFit`, `GapFrames`, `RegisterMap`, `PlayerRecorder`, `PlayAndRecord`).
  The player lays frames out in bus words of regions and block slots and writes each word through registers;
  the recorder reads words and rebuilds frames. A reference parser over slots says what a
  stream of words means. The player is proved to write the images of a layout that means
  exactly its frames, the recorder to capture exactly what a stream means, and both together
  to be inverse, with the exact conditions under which the code is.
- **Packet generators** (`ProtocolGraph`, `ProtocolPaths`, `ParserDfs`, `ParserRand`). An
  explicit-stack depth-first search and a random walk over a graph of protocols whose edges
  depend on counters: termination, refinement of the recursive path list, bounds.
- **Completion words** (`CompletionWords`). The simulation of PCIe completions packed into
  bus words, its sum over completion boundaries, and the closed form of the hardware.
- **Transmit queue** (`TxRing`). Descriptor and buffer rings between the driver and hardware
  that consumes at any time.
- **Hash table toolkit** (`HashFunctions`, `HashTables`, `HashToolkit`). Key lists, slots and
  counters of two tables as one finite map; the Toeplitz hash; saving and loading.
- **Rate limiters** (`Reals`, `EthernetRate`, `ItemRate`) with the driver loop that obeys one.
- **Register slices** (`SliceCodec`, `DataLogger`, `HexDigits`, `AmmBuffer`): cached selectors,
  wide values cut into slices and joined, in Python and in C.
- **FL_SIM text** (`FlSimText`) and **combinations** (`CombinationExpansion`).

`Numbers` defines shifts, masks and fields by doubling and halving; `Options` holds values
that may be missing. Objects the tools update in place are classes, loops are loops; each is
tied to a function of its inputs or old state, and the lemmas are about these functions.

`dafny verify dfyconfig.toml` checks everything.

## What the proofs found

- A one-byte frame that is not the last one spoils the capture: with equal offsets the strict
  comparison at recorder.py:290 keeps its start flag (`RecorderExact`, `OneByteInput`).
- An idle word, with no frame open and none starting, is buffered as if a frame began in it;
  the next end raises the recorder's no-start error (recorder.py:465-469). The player sends
  such a word itself for an empty list, so recording that run together with a later one loses
  every frame (`RecorderExact`, `EmptyRunFirst`, `EmptyRunInput`).
- Two frames that end in one region lose one of them (`DoubleEndLoses`, `DoubleEndInput`); the
  sizes in blocks tell when (`EndsAll`).
- The last word is sent without filling it up; if a slot in it was skipped, its data moves
  down and survives only as zeros (`ReadMeaning`, `GapLoses`). The sizes tell which frames
  these are (`BehindAll`). Frames of at least a region are never affected
  (`LongFramesRoundTrip`).
- The FIFO check counts words by regions alone, and the last word goes out unchecked: one word
  beyond the depth is written exactly when the full words fill the FIFO (`FifoExceeded`,
  `FifoOverrun`).
- A configured VLAN depth is exceeded by one header for each TRILL (`VlanBoundReached`).
- `words_count_short` overwrites its length parameter (`WordsCountShort`); from line 128 on it
  is right for every address and length (`ShortCount`).
- Without flushing, the transmit queue can come to wait for ever (`SendMsg`): after 254
  messages the next one does (`NeverFlushed`).
- `comm_remove` by a negative position, `comm_replace` and `comm_load` can leave the tables out
  of step, exactly when `CommRemove`, `CommReplace` and `LoadPair` say so
  (`NegativeRemoveInput`, `CollidingInput`).
- `comm_replace` with a record number counted from the end puts the new key one place before
  the old one (`InsertedIs`).
- A refused load still changes the hash key that is saved next (`CommLoad`). The saved file
  then comes back in step exactly if the Toeplitz table has no two keys that collide under it
  (`SaveAndLoad`); with hash key 0 any two do (`RefusedLoadThenSave`).
- With one table, records put into the second one are not saved (`SaveAndLoad`).
- `get_bits` with width and position 0 returns the whole number (`GetBitsIs`).
- `cartesian_product` leaves a helper column in the tables it was given, so a second product
  over three or more of them is always refused (`SecondProduct`).

## Reading the model

- The player's items are bytes (`item_width` 8). Each region has a block list of its own,
  although player.py:166 repeats one list. The recorder divides integers (recorder.py:287,
  288, 399), as its language version does. All data limbs go to one address
  (player.py:290-297); a word is its limbs, low one first.
- Packets are taken from the end of the list. A frame without bytes leaves no trace.
- User weights re-weight edges a protocol's table has, and counters are not negative.
- RCB is 0: boundaries every 16 dwords. The simulation is modelled for every word width, the
  closed form for widths that divide a boundary.
- The transmit controller masks `sdp` by 255 and starts with its pointers at zero. Whether the
  upper address changed is given with each message, so that one or two descriptors are pushed.
- The wait loop polls a given number of times; what is proved holds for every number.
- Hashes index the table: 2^hash_width is at most the capacity, and the hash key is wide enough
  for every slice.
- Selector registers hold what is written to them.
- `tmp` in `AMMHexaToMISlices` is read as its eight digits, although it has no terminator.

## Model

| member | source | states |
|---|---|---|
| `PlayerRecorder.RoundTripExact` | comp/mfb_tools/debug/frame_recorder/sw/recorder.py:205-258 | player and recorder are inverse to each other exactly where the code is: for every configuration, FIFO depth and packet list, the recorder captures precisely the frames played, in order and without an error, if and only if no region got two frame ends, no frame but the last is one byte long, and every block placed after a skipped slot of the unpadded last word is zeros |
| `PlayerRecorder.RoundTripOnSizes` | comp/mfb_tools/debug/frame_player/sw/player.py:188-266 | the same condition on the packets themselves: their sizes in blocks tell whether two frames end in one region and how many of the last frames lie behind a skipped slot of the last word, and those frames have to be zeros |
| `PlayerRecorder.PlayedAre` | comp/mfb_tools/debug/frame_player/sw/player.py:197-217 | which packets are played, from their sizes: those at the end of the list that the FIFO has room for, last packet first, without the empty ones |
| `GapFrames.BehindAll` | comp/mfb_tools/debug/frame_player/sw/player.py:188-266 | over a whole run the blocks behind a skipped slot of the last word are zeros if and only if the frames are that the sizes put there |
| `GapFrames.BehindFrame` | comp/mfb_tools/debug/frame_player/sw/player.py:255-264 | one frame more: behind a skipped slot it has to be zeros, and else nothing has to be |
| `GapFrames.ZeroBlocks` | comp/mfb_tools/debug/frame_player/sw/player.py:327-353 | a frame is zeros if and only if all its zero-filled blocks are |
| `PlayAndRecord.PlayThenRecord` | comp/mfb_tools/debug/frame_recorder/sw/recorder.py:205-258 | running the player and then the recorder yields exactly the frames played, if and only if the packets meet that condition; and the words written exceed the FIFO depth if and only if the full words equal it |
| `PlayerRecorder.FilledIs` | comp/mfb_tools/debug/frame_player/sw/player.py:226-266 | full words, shared ends and skipped slots of the layout, from the sizes of the packets |
| `PlayerRecorder.OneByteInput` | comp/mfb_tools/debug/frame_recorder/sw/recorder.py:288-302 | an input with a one-byte frame before another one |
| `PlayerRecorder.DoubleEndInput` | comp/mfb_tools/debug/frame_player/sw/player.py:255-261 | an input with two ends in one region: three blocks and then one, two slots a region |
| `FrameFit.ShowsAll` | comp/mfb_tools/debug/frame_player/sw/player.py:188-266 | words sent, region, level, start and skipped slots after a whole run are those computed frame by frame from sizes alone |
| `FrameFit.EndsAll` | comp/mfb_tools/debug/frame_player/sw/player.py:255-261 | two frames end in one region of a run exactly if a frame goes on behind an earlier frame's tail and fits into the rest of that region |
| `FrameFit.SingleAppendIff` | comp/mfb_tools/debug/frame_player/sw/player.py:255-261 | a block keeps single ends exactly if it ends no frame in a region that has an end |
| `FrameFit.ChunkCount` | comp/mfb_tools/debug/frame_player/sw/player.py:327-339 | a frame has ceil(length / block size) blocks |
| `SkippedSlots.LayoutRoundTrip` | comp/mfb_tools/debug/frame_recorder/sw/recorder.py:245-258 | for any finished layout with single ends, recording what is emitted gives its frames if and only if no frame but the last is one byte and all blocks after a skipped slot of the last word are zeros |
| `SkippedSlots.ReadStream` | comp/mfb_tools/debug/frame_player/sw/player.py:189-194 | what is written for such a layout is a conforming stream without idle words: as many frames of the same lengths, and the same frames if and only if only zeros follow a skipped slot of the last word |
| `SkippedSlots.ReadMeaning` | comp/mfb_tools/debug/frame_player/sw/player.py:189-194 | what is read of the unpadded last word means the same frames if and only if every block after a skipped slot is zeros |
| `SkippedSlots.ReadSlot` | comp/mfb_tools/debug/frame_player/sw/player.py:277-297 | a slot of that word reads as a block that lies there or later, or as zeros; as its own block exactly if no slot before it was skipped |
| `SkippedSlots.PlacedTidy` | comp/mfb_tools/debug/frame_player/sw/player.py:245-264 | skipped slots carry no mark and come right before a start, and a block that does not start a frame follows a block of its frame |
| `PlayerRecorder.LongFramesRoundTrip` | comp/mfb_tools/debug/frame_player/sw/player.py:173-268 | frames of at least two bytes that need at least `region_size` blocks always round-trip, whatever their contents, number and the FIFO depth |
| `PlayerRecorder.GapLoses` | comp/mfb_tools/debug/frame_player/sw/player.py:189-194 | an input that shows the last condition matters: two frames of two bytes each, two slots a region, are not read back |
| `PlayerRecorder.FifoBound` | comp/mfb_tools/debug/frame_player/sw/player.py:207-216 | the player never sends more than `fifo_depth + 1` words |
| `PlayerRecorder.FifoExceeded` | comp/mfb_tools/debug/frame_player/sw/player.py:207-216 | the words exceed the depth if and only if the full words of the frames played, computed from their sizes, equal it |
| `PlayerRecorder.FifoOverrun` | comp/mfb_tools/debug/frame_player/sw/player.py:207-216 | that bound is reached: two one-byte frames with a one-word FIFO give two words |
| `PlayerRecorder.AllPlayed` | comp/mfb_tools/debug/frame_player/sw/player.py:188-217 | when the words all frames ask for fit the FIFO, every frame with bytes is played, last packet first |
| `PlayerRecorder.EmittedLimbs` | comp/mfb_tools/debug/frame_player/sw/player.py:291-297 | every value written to the data register fits 32 bits |
| `PlayerRecorder.PlayedGood` | comp/mfb_tools/debug/frame_player/sw/player.py:173-268 | the words of a run, read by the reference parser, are exactly the frames placed, with no frame left open |
| `PlayerRecorder.IdleWord` | comp/mfb_tools/debug/frame_player/sw/player.py:190-194 | with no frame one idle word is sent, and it captures nothing |
| `PlayerRecorder.EmptyRunFirst` | comp/mfb_tools/debug/frame_recorder/sw/recorder.py:457-469 | a run without frames and then one with frames, recorded together: the idle word is buffered without a start, and the first end raises the no-start error, so every frame is lost |
| `PlayerRecorder.EmptyRunInput` | comp/mfb_tools/debug/frame_recorder/sw/recorder.py:457-469 | an input: nothing, and then one frame of two bytes |
| `LastWordGap.LastWordImage` | comp/mfb_tools/debug/frame_player/sw/player.py:277-297 | the unpadded word is, register by register, the image of a word with the same marks and its data moved down over the skipped slots |
| `MfbRoundTrip.LayoutConforms` | comp/mfb_tools/debug/frame_player/sw/player.py:226-266 | the words of such a layout follow the bus rules: starts and ends alternate, none share a region, no word is idle, and they carry the layout's frames |
| `MfbRoundTrip.OneByteFrames` | comp/mfb_tools/debug/frame_recorder/sw/recorder.py:290-299 | the one-byte condition on bus slots is the one-byte condition on frames |
| `MfbRoundTrip.EmittedEncoded` | comp/mfb_tools/debug/frame_player/sw/player.py:192-192 | without a skipped slot the unpadded last word has the registers of the zero-padded one |
| `FrameCount.DoubleEndLoses` | comp/mfb_tools/debug/frame_player/sw/player.py:255-261 | two ends in one region lose a frame whatever the data: the recorder captures fewer frames than were played |
| `FrameCount.RunCounts` | comp/mfb_tools/debug/frame_recorder/sw/recorder.py:245-258 | a capture that does not fail holds at most as many frames as the words have end flags |
| `RecorderExactness.RecorderExact` | comp/mfb_tools/debug/frame_recorder/sw/recorder.py:205-305 | on every conforming word stream the capture equals the stream's frames if and only if neither a one-byte frame nor an idle word is followed by an end of frame: the strict comparison of offsets and the no-start error decide |
| `RecorderExactness.BreakDiverges` | comp/mfb_tools/debug/frame_recorder/sw/recorder.py:290-305 | otherwise the capture fails or holds a frame of another length than the stream carries, for good |
| `RecorderExactness.IdleBreak` | comp/mfb_tools/debug/frame_recorder/sw/recorder.py:457-469 | if an idle word is the first to break the condition, the capture ends with the no-start error |
| `RecorderExactness.IdleFirst` | comp/mfb_tools/debug/frame_recorder/sw/recorder.py:457-469 | one idle word in front of any conforming stream with frames loses them all |
| `RecorderExactness.HeadlessFeed` | comp/mfb_tools/debug/frame_recorder/sw/recorder.py:457-469 | a buffer whose first word shows no start grows until an end arrives, which raises the no-start error |
| `RecorderExactness.AfterOneByte` | comp/mfb_tools/debug/frame_recorder/sw/recorder.py:290-305 | after a one-byte frame its start flag survives, and the next end decodes a frame of the wrong length |
| `RecorderExactness.OneByteBreak` | comp/mfb_tools/debug/frame_recorder/sw/recorder.py:290-305 | if a one-byte frame is the first to break the condition, the capture fails or holds a frame of another length, for good |
| `RecorderStream.RunUpTo` | comp/mfb_tools/debug/frame_recorder/sw/recorder.py:205-258 | as long as neither has an end behind it, every captured prefix is exact and without an error, and while ends follow the buffer holds precisely the open frame |
| `RecorderStream.HeadDiffers` | comp/mfb_tools/debug/frame_recorder/sw/recorder.py:472-472 | `one_word`, an equality of word contents, holds only when one word is buffered: a buffered first word shows no end, so it differs from any word that shows one |
| `RecorderStream.DecodeOne` | comp/mfb_tools/debug/frame_recorder/sw/recorder.py:479-482 | a frame inside one word is decoded to exactly its bytes |
| `RecorderStream.DecodeImages` | comp/mfb_tools/debug/frame_recorder/sw/recorder.py:479-491 | a frame over several buffered words is decoded to exactly its bytes |
| `RecorderStream.InitInside` | comp/mfb_tools/debug/frame_recorder/sw/recorder.py:290-299 | after a frame inside the word, exactly its start and end flags are gone and later frames stay |
| `RecorderStream.InitCarried` | comp/mfb_tools/debug/frame_recorder/sw/recorder.py:300-305 | after a frame that was carried in, only its end flag is gone, and the word is dropped when no frame starts in it |
| `RecorderStream.InitOneByte` | comp/mfb_tools/debug/frame_recorder/sw/recorder.py:288-302 | for a one-byte frame equal offsets keep the start flag |
| `RecorderStream.FeedWord` | comp/mfb_tools/debug/frame_recorder/sw/recorder.py:243-258 | one word of a conforming stream adds exactly the frames it completes |
| `CapturedWords.CaptureEncode` | comp/mfb_tools/debug/frame_recorder/sw/recorder.py:216-241 | limbs, shifts and masks of a transferred word give back its blocks and registers |
| `CapturedWords.DetectOf` | comp/mfb_tools/debug/frame_recorder/sw/recorder.py:341-386 | detection finds the first marked slot after those already masked, with its exact position |
| `CapturedWords.RemoveOf` | comp/mfb_tools/debug/frame_recorder/sw/recorder.py:307-339 | masking a flag removes that mark and no other |
| `CapturedWords.SerializeTo` | comp/mfb_tools/debug/frame_recorder/sw/recorder.py:408-442 | serialization from a start block to an end item yields exactly the bytes in between |
| `CapturedWords.SerializeRest` | comp/mfb_tools/debug/frame_recorder/sw/recorder.py:484-491 | serialization to the end of the word yields the rest of its bytes |
| `FrameRecorder.DecodeDrops` | comp/mfb_tools/debug/frame_recorder/sw/recorder.py:245-258 | each decoded frame makes the buffered flags smaller, so the inner loop ends |
| `FrameRecorder.RepeatedWord` | comp/mfb_tools/debug/frame_recorder/sw/recorder.py:472-491 | the test for one word compares contents: a word buffered twice, with a start and an end, is cut from start to end and then from its first byte to the end |
| `FrameRecorder.RemoveDrops` | comp/mfb_tools/debug/frame_recorder/sw/recorder.py:307-339 | masking a detected flag makes the flag register smaller |
| `Numbers.AndOnes` | comp/mfb_tools/debug/frame_recorder/sw/recorder.py:229-231 | masking with `int('1' * k, 2)` keeps the k low bits |
| `Numbers.FieldIs` | comp/mfb_tools/debug/frame_recorder/sw/recorder.py:345-384 | shifting down by r entries of w bits and masking w bits is dividing by 2^(r * w) and taking the rest modulo 2^w |
| `Numbers.BitOr` | comp/mfb_tools/debug/frame_player/sw/player.py:299-323 | or of registers, bit by bit |
| `Numbers.PackUnpack` | comp/mfb_tools/debug/frame_player/sw/player.py:288-297 | cutting a number into limbs and joining them loses nothing |
| `Reader.RecorderReader.Read` | comp/mfb_tools/debug/frame_recorder/sw/recorder.py:205-258 | the capture loop over all words equals the run of the specification, error cases included |
| `Reader.RecorderReader.FeedWord` | comp/mfb_tools/debug/frame_recorder/sw/recorder.py:243-258 | one turn: the word is buffered and frames are decoded while one completes |
| `Reader.RecorderReader.ReadWord` | comp/mfb_tools/debug/frame_recorder/sw/recorder.py:216-241 | the loop over the data registers, high limb first |
| `Reader.RecorderReader.SplitBlocks` | comp/mfb_tools/debug/frame_recorder/sw/recorder.py:226-236 | the nested loops cut the bus into regions of blocks |
| `Reader.RecorderReader.DecodeBuffer` | comp/mfb_tools/debug/frame_recorder/sw/recorder.py:444-496 | decoding of the buffer, with its no-start error |
| `Reader.RecorderReader.CollectPieces` | comp/mfb_tools/debug/frame_recorder/sw/recorder.py:471-491 | the loop over the buffered words |
| `Reader.RecorderReader.SerializeData` | comp/mfb_tools/debug/frame_recorder/sw/recorder.py:408-442 | the nested loops over regions, blocks and items equal a cut of the word's bytes, or the serialization error |
| `Reader.RecorderReader.TrimBuffer` | comp/mfb_tools/debug/frame_recorder/sw/recorder.py:272-305 | the buffer for the next frame |
| `Player.PlayerConfigurator.Generate` | comp/mfb_tools/debug/frame_player/sw/player.py:173-268 | the words written are exactly the register images of the layout of the frames that fit, in order, and `words_cnt` counts them |
| `Player.PlayerConfigurator.PlaceBlockList` | comp/mfb_tools/debug/frame_player/sw/player.py:217-266 | placing all blocks of a frame |
| `Player.PlayerConfigurator.PlaceOne` | comp/mfb_tools/debug/frame_player/sw/player.py:220-266 | placing one block: fill and send a complete word, go to the next region, set the marks |
| `Player.PlayerConfigurator.AppendBlock` | comp/mfb_tools/debug/frame_player/sw/player.py:249-264 | marks, positions and data of one block |
| `Player.PlayerConfigurator.FillMfbWord` | comp/mfb_tools/debug/frame_player/sw/player.py:355-370 | every region is filled up with zero blocks |
| `Player.PlayerConfigurator.SendMfbWord` | comp/mfb_tools/debug/frame_player/sw/player.py:270-325 | the registers written are the image of the word |
| `Player.PlayerConfigurator.SerializeBus` | comp/mfb_tools/debug/frame_player/sw/player.py:281-287 | items of regions and blocks are joined low item first |
| `Player.PlayerConfigurator.SplitLimbs` | comp/mfb_tools/debug/frame_player/sw/player.py:288-297 | the bus is cut into 32-bit limbs, low limb first |
| `Player.PlayerConfigurator.PackFlags` | comp/mfb_tools/debug/frame_player/sw/player.py:299-317 | the flag vector |
| `Player.PlayerConfigurator.PackPositions` | comp/mfb_tools/debug/frame_player/sw/player.py:301-317 | the packed positions, zero where there is no flag |
| `FramePlayer.ImageIsEncode` | comp/mfb_tools/debug/frame_player/sw/player.py:270-325 | the registers of a word being filled are the image of its slots |
| `RegisterMap.EmittedCarries` | comp/mfb_tools/debug/frame_player/sw/player.py:270-325 | every word of a layout in ordinary arithmetic: bits r * w to (r + 1) * w of a position register are the start block, or the offset of the last byte, of the frame marked in region r; bit 0 is set, bits 1 + r and 1 + regions + r tell whether a frame ends or starts in region r; the transactions, as few as a word takes, cut the number whose bytes are the data |
| `RegisterMap.EntryWidths` | comp/mfb_tools/debug/frame_player/sw/player.py:139-140 | an entry of the start register has the least width of at least one bit that tells the blocks of a region apart, one of the end register that which tells its bytes apart |
| `RegisterMap.PositionsAre` | comp/mfb_tools/debug/frame_player/sw/player.py:301-317 | the entries of a position register, region by region |
| `RegisterMap.FlagsAre` | comp/mfb_tools/debug/frame_player/sw/player.py:299-323 | the bits of the flag register |
| `RegisterMap.DataIs` | comp/mfb_tools/debug/frame_player/sw/player.py:281-297 | the data transactions |
| `RegisterMap.TransactionCount` | comp/mfb_tools/debug/frame_player/sw/player.py:136-136 | as many 32-bit transactions as the bytes of a word need, and no more |
| `FramePlayer.PutBlockFills` | comp/mfb_tools/debug/frame_player/sw/player.py:249-264 | appending a block in the structure is appending a slot in the layout |
| `FramePlayer.FilledImage` | comp/mfb_tools/debug/frame_player/sw/player.py:355-370 | filling with zero blocks is padding with empty slots |
| `FrameLayout.PlaceGood` | comp/mfb_tools/debug/frame_player/sw/player.py:188-266 | placing frames keeps the layout well-formed and adds exactly those frames to its meaning |
| `FrameLayout.PlaceFrameGood` | comp/mfb_tools/debug/frame_player/sw/player.py:197-266 | placing one frame adds exactly that frame |
| `FrameLayout.PlaceBlockGood` | comp/mfb_tools/debug/frame_player/sw/player.py:226-264 | placing one block adds exactly that block; no region ever receives two starts |
| `FrameLayout.PlaceRoom` | comp/mfb_tools/debug/frame_player/sw/player.py:207-217 | the FIFO check keeps the words sent within the depth |
| `FrameLayout.LongFramesRegular` | comp/mfb_tools/debug/frame_player/sw/player.py:245-261 | with frames of at least a region, no region receives two ends and no region before the last used one is short |
| `FrameLayout.ConcatChunks` | comp/mfb_tools/debug/frame_player/sw/player.py:327-339 | the blocks of a frame joined are the frame |
| `ProtocolGraph.StepDrops` | comp/uvm/packet_generators/search/parser.py:55-307 | every step of the protocol graph makes (trill, protocol rank, own counter) lexicographically smaller, for all counters and weights |
| `ProtocolGraph.WeightIs` | comp/uvm/packet_generators/search/parser.py:62-307 | what an edge weighs: nothing where a counter is spent, and else the user's weight or 1, with 1 more for IP after the last MPLS header; TRILL ignores the settings |
| `ProtocolGraph.EdgesInto` | comp/uvm/packet_generators/search/parser.py:62-296 | the graph from the other side: which protocols lead to one |
| `ProtocolGraph.EdgesAlike` | comp/uvm/packet_generators/search/parser.py:62-296 | which tables are alike, and how their orders agree |
| `ProtocolGraph.PositiveInOrder` | comp/uvm/packet_generators/search/parser_dfs.py:24-27 | the successors keep the order of the table |
| `ProtocolGraph.SuccIs` | comp/uvm/packet_generators/search/parser_dfs.py:23-27 | the successor list holds exactly the open edges, each once, in table order |
| `ProtocolGraph.ProtocolNext` | comp/uvm/packet_generators/search/parser.py:62-307 | whichever protocol the returned table allows next is a lexicographic step towards the end of the packet, what headers of each kind may still come covers this one and what may follow it, and its weight is what the settings give or 1, and 1 more for IP after the last MPLS header |
| `ProtocolGraph.LastMpls` | comp/uvm/packet_generators/search/parser.py:233-248 | after the last MPLS header a packet can always go on with IP and not with MPLS, whatever the weights |
| `ProtocolGraph.AfterTrill` | comp/uvm/packet_generators/search/parser.py:62-66 | TRILL is followed by ETH alone, with one TRILL header less to come |
| `ProtocolGraph.TrillDrops` | comp/uvm/packet_generators/search/parser.py:62-66 | no step lets more TRILL headers come than were left |
| `ProtocolGraph.VlanDrops` | comp/uvm/packet_generators/search/parser.py:275-307 | no step lets more VLAN headers come than were left |
| `ProtocolGraph.MplsDrops` | comp/uvm/packet_generators/search/parser.py:233-248 | no step lets more MPLS headers come than were left |
| `ProtocolGraph.IPv6ExtDrops` | comp/uvm/packet_generators/search/parser.py:176-187 | no step lets more extension headers come than were left |
| `ProtocolGraph.BaseTable` | comp/uvm/packet_generators/search/parser.py:258-264 | the weight of an edge is what the settings give for it, and 1 if they give none; TRILL takes no settings |
| `ProtocolGraph.PacketConfig.Copy` | comp/uvm/packet_generators/search/config.py:45-51 | a new object with the same counters |
| `ProtocolPaths.PathsAreWalks` | comp/uvm/packet_generators/search/parser_dfs.py:45-79 | the paths are exactly the walks that take an open edge at each step and stop where none is open |
| `ProtocolPaths.PathsDistinct` | comp/uvm/packet_generators/search/parser_dfs.py:45-79 | no path occurs twice |
| `ProtocolPaths.PathsExist` | comp/uvm/packet_generators/search/parser_dfs.py:45-79 | there is always a path |
| `ProtocolPaths.PathBounds` | comp/uvm/packet_generators/search/parser.py:55-307 | every path from ETH has at most trill TRILL, max(1, vlan) + trill VLAN, max(1, mpls) MPLS and max(1, ipv6ext) IPv6Ext headers |
| `ProtocolPaths.PacketBounds` | comp/uvm/packet_generators/search/config.py:23-43 | a packet with the initial counters has at most one TRILL header, one VLAN more than its depth, and MPLS and extension headers up to theirs |
| `ProtocolPaths.VlanBoundReached` | comp/uvm/packet_generators/search/parser.py:275-307 | with all weights positive the VLAN bound is reached, so the configured VLAN depth is exceeded by one for each TRILL |
| `ProtocolPaths.BoundsReached` | comp/uvm/packet_generators/search/parser.py:55-307 | with all weights positive one path has as many TRILL, MPLS and extension headers as the bounds allow |
| `ProtocolPaths.PacketBoundsReached` | comp/uvm/packet_generators/search/config.py:23-43 | so a packet reaches the bounds that its defaults or the settings give |
| `ProtocolPaths.ZeroWeightUnused` | comp/uvm/packet_generators/search/parser.py:302-302 | no path takes an edge the user weighs 0, but from the last MPLS header to IP |
| `ProtocolPaths.WalkStep` | comp/uvm/packet_generators/search/parser_dfs.py:45-79 | every step of a path is an edge open under the counters it has by then |
| `ProtocolPaths.SwitchedOffInput` | comp/uvm/packet_generators/search/parser.py:300-307 | an input: with VLAN switched off after ETH, a VLAN packet is not among the paths |
| `ParserDfs.Generator.Gen` | comp/uvm/packet_generators/search/parser_dfs.py:45-79 | the explicit stack writes exactly the recursively defined list of paths from ETH, in the same order, and ends |
| `ParserDfs.Generator.Turn` | comp/uvm/packet_generators/search/parser_dfs.py:53-79 | one turn: push the next successor, drop an exhausted item, or write the stack's path |
| `ParserDfs.Generator.PacketNames` | comp/uvm/packet_generators/search/parser_dfs.py:69-74 | the loop over the stack |
| `ParserDfs.DfsItem.constructor` | comp/uvm/packet_generators/search/parser_dfs.py:19-27 | an item copies the configuration, moves its counters on and keeps the positive weights |
| `ParserDfs.Weighted` | comp/uvm/packet_generators/search/parser_dfs.py:25-27 | the loop that keeps names with a weight |
| `ParserDfs.PushKeeps` | comp/uvm/packet_generators/search/parser_dfs.py:59-62 | pushing a successor neither loses nor repeats a path still to be written, and leaves less to do |
| `ParserDfs.PopKeeps` | comp/uvm/packet_generators/search/parser_dfs.py:63-79 | dropping an item loses no path; a leaf gives exactly the stack's path |
| `ParserRand.Generator.Walk` | comp/uvm/packet_generators/search/parser_rand.py:26-42 | whatever is drawn, the walk ends, and it follows one of the paths; it fails only at a protocol whose edges all weigh nothing |
| `ParserRand.Generator.Gen` | comp/uvm/packet_generators/search/parser_rand.py:24-43 | the requested number of packets, each one of the paths, unless a walk fails |
| `ParserRand.Choices` | comp/uvm/packet_generators/search/parser_rand.py:37-37 | a draw takes an entry of positive weight and fails if there is none |
| `ParserRand.ProtoWeightGet` | comp/uvm/packet_generators/search/parser.py:345-352 | names and weights of a table, in step |
| `ParserRand.NeverStuck` | comp/uvm/packet_generators/search/parser.py:239-248 | no walk gets stuck with positive weights, after TRILL, or after the last MPLS header whatever the weights |
| `CompletionWords.WordsCountLong` | comp/pcie/ptc/comp/tag_manager/max_words_num_transcript_check.py:55-120 | the simulation yields exactly the bitmaps of completions packed one by one, padded to four words, for every address, length and word width |
| `CompletionWords.BitmapsCount` | comp/pcie/ptc/comp/tag_manager/max_words_num_transcript_check.py:68-109 | these bitmaps are as many as the sum over completion boundaries of ceil(chunk / width), and have exactly one bit for each dword requested |
| `CompletionWords.FirstIs` | comp/pcie/ptc/comp/tag_manager/max_words_num_transcript_check.py:80-80 | a completion ends with the request or at the next multiple of 64 bytes, whichever is first |
| `CompletionWords.FullIs` | comp/pcie/ptc/comp/tag_manager/max_words_num_transcript_check.py:78-78 | the bitmap of k dwords has exactly the k low bits set |
| `CompletionWords.WideIs` | comp/pcie/ptc/comp/tag_manager/max_words_num_transcript_check.py:17-18 | a bus word holds 2^l dwords, and shifting by l divides by that |
| `CompletionWords.BitmapsMore` | comp/pcie/ptc/comp/tag_manager/max_words_num_transcript_check.py:78-95 | what one more dword does to the words: it joins the last word, or starts one after a boundary or a full word |
| `CompletionWords.ShortCount` | comp/pcie/ptc/comp/tag_manager/max_words_num_transcript_check.py:128-177 | the closed form, with the length as parameter, equals that sum for every address and length |
| `CompletionWords.AlignedSum` | comp/pcie/ptc/comp/tag_manager/max_words_num_transcript_check.py:154-162 | the sum from an aligned address |
| `CompletionWords.UnalignedSum` | comp/pcie/ptc/comp/tag_manager/max_words_num_transcript_check.py:163-176 | the sum from an unaligned address: first, whole and last completion |
| `CompletionWords.FirstWords` | comp/pcie/ptc/comp/tag_manager/max_words_num_transcript_check.py:147-150 | the rounded address gives the words of the first completion |
| `CompletionWords.Agree` | comp/pcie/ptc/comp/tag_manager/max_words_num_transcript_check.py:55-177 | closed form and simulation agree up to the padding |
| `CompletionWords.WordsCountShort` | comp/pcie/ptc/comp/tag_manager/max_words_num_transcript_check.py:124-177 | as written the length is overwritten: the result is always 0, right only for empty requests |
| `TxRing.QueueNdpTx.SendMsg` | python/cocotbext/cocotbext/nfb/queue.py:139-167 | with the hardware running between any two steps: the wire only ever holds what was sent; the message is appended to it, as one or two descriptors, and flushed when asked; a rejected length changes nothing; it is still waiting only if the last poll found less than two free; and with more than 253 unflushed descriptors it waits for ever |
| `TxRing.WireIsSent` | python/cocotbext/cocotbext/nfb/queue.py:161-164 | the hardware puts exactly the sent packets on the wire, in order and unchanged; all of them once it has consumed every descriptor |
| `TxRing.NextSlotFree` | python/cocotbext/cocotbext/nfb/queue.py:66-69 | the slot about to be written holds no unconsumed descriptor |
| `TxRing.NextBufferFree` | python/cocotbext/cocotbext/nfb/queue.py:158-164 | the buffer at `_npi` belongs to no unconsumed packet |
| `TxRing.FreeIs` | python/cocotbext/cocotbext/nfb/queue.py:149-151 | the masked difference is the free count as of the pointer read, between 0 and 255 |
| `TxRing.RoomOnceCaughtUp` | python/cocotbext/cocotbext/nfb/queue.py:148-156 | after the hardware caught up a poll finds room if and only if at most 253 descriptors are unflushed |
| `TxRing.NeverFlushed` | python/cocotbext/cocotbext/nfb/queue.py:139-167 | an input that waits for ever: on a new queue 254 messages are sent without flushing, and the next one never is, for any number of tries and polls |
| `TxRing.ConsumeSends` | python/cocotbext/cocotbext/nfb/queue.py:161-163 | consuming a packet descriptor sends the bytes written for it |
| `TxRing.PushKeeps` | python/cocotbext/cocotbext/nfb/queue.py:66-69 | pushing keeps every unconsumed packet's buffer |
| `TxRing.WriteKeeps` | python/cocotbext/cocotbext/nfb/queue.py:161-161 | writing the next buffer keeps them too |
| `TxRing.BuffersApart` | python/cocotbext/cocotbext/nfb/queue.py:46-57 | packet buffers of all queues occupy different memory |
| `TxRing.AddressesAre` | python/cocotbext/cocotbext/nfb/queue.py:46-57 | each queue owns 2 MiB: buffers of 4 KiB in a row, and descriptors of 8 bytes in a row from the second half on |
| `TxRing.SlotsApart` | python/cocotbext/cocotbext/nfb/queue.py:50-57 | descriptor slots of all queues occupy different memory, and none is inside a packet buffer |
| `TxRing.QueueNdpTx.WaitForRoom` | python/cocotbext/cocotbext/nfb/queue.py:148-156 | the wait loop: never more than the true free count is believed in |
| `TxRing.QueueNdpTx.PushOneDesc` | python/cocotbext/cocotbext/nfb/queue.py:66-69 | slot, pointer and free count after one push |
| `HashTables.FullTable` | comp/mvb_tools/storage/mvb_hash_table_simple/sw/toolkit.py:299-299 | pigeonhole: a table holds at most as many records as slots, and a full one has every slot valid |
| `HashTables.AddKeeps` | comp/mvb_tools/storage/mvb_hash_table_simple/sw/toolkit.py:299-308 | adding in a free slot keeps keys, slots and counter in step, and changes no other key's record |
| `HashTables.RemoveKeeps` | comp/mvb_tools/storage/mvb_hash_table_simple/sw/toolkit.py:447-454 | removing a record keeps them in step and every other record |
| `HashTables.FirstHit` | comp/mvb_tools/storage/mvb_hash_table_simple/sw/toolkit.py:467-472 | a valid position always has a key to delete |
| `HashTables.NegativeRemoveBreaks` | comp/mvb_tools/storage/mvb_hash_table_simple/sw/toolkit.py:462-475 | a negative position that names a valid slot leaves the table out of step |
| `HashTables.NegativeRemoveInput` | comp/mvb_tools/storage/mvb_hash_table_simple/sw/toolkit.py:462-475 | an input: one record in the last of two slots, removed by position -1 |
| `HashTables.ReplaceKeeps` | comp/mvb_tools/storage/mvb_hash_table_simple/sw/toolkit.py:408-417 | replacing keeps the table in step if and only if no remaining key hashes to the new key's slot |
| `HashTables.CollidingInput` | comp/mvb_tools/storage/mvb_hash_table_simple/sw/toolkit.py:408-417 | inputs: a replacement by a key that collides, and a file with two records that do, leave a table of two slots out of step |
| `HashTables.LoadSaved` | comp/mvb_tools/storage/mvb_hash_table_simple/sw/toolkit.py:655-724 | saving and loading a table gives back its keys in order, its counter, its valid slots and its map |
| `HashTables.LoadGood` | comp/mvb_tools/storage/mvb_hash_table_simple/sw/toolkit.py:708-720 | a loaded table is in step if and only if every key can be hashed and no two records collide |
| `HashTables.LoadSavedUnder` | comp/mvb_tools/storage/mvb_hash_table_simple/sw/toolkit.py:609-720 | saved under one hash function and loaded under another, a table has the same keys and counter; it is in step, and then stands for the same map, if and only if no keys collide under the new one |
| `HashTables.XorDistinct` | comp/mvb_tools/storage/mvb_hash_table_simple/sw/toolkit.py:836-845 | whether keys of the simple hash collide does not depend on the hash key |
| `HashTables.ZeroKeyCollides` | comp/mvb_tools/storage/mvb_hash_table_simple/sw/toolkit.py:806-820 | under hash key 0 any two keys of the Toeplitz table collide |
| `HashTables.EmptyIsGood` | comp/mvb_tools/storage/mvb_hash_table_simple/sw/toolkit.py:94-102 | an empty table is in step and stands for the empty map |
| `HashToolkit.Toolkit.CommAdd` | comp/mvb_tools/storage/mvb_hash_table_simple/sw/toolkit.py:256-321 | an add succeeds if and only if its arguments fit, the key is new, and its slot is free in the table named or, that table not being full, in the second one; then the map gains exactly that record, else nothing changes; every error is reported |
| `HashToolkit.Toolkit.AddIs` | comp/mvb_tools/storage/mvb_hash_table_simple/sw/toolkit.py:256-321 | when an add succeeds, which table takes the key, and which argument is refused first |
| `HashToolkit.FitsBytesIs` | comp/mvb_tools/storage/mvb_hash_table_simple/sw/toolkit.py:271-283 | a value is accepted if and only if width // 8 bytes, low one first, make it up |
| `HashToolkit.Toolkit.NamesAre` | comp/mvb_tools/storage/mvb_hash_table_simple/sw/toolkit.py:141-154 | "toeplitz" names the table of the Toeplitz hash, "xor" that of the simple one, and there is no other name |
| `HashToolkit.Toolkit.CommRemove` | comp/mvb_tools/storage/mvb_hash_table_simple/sw/toolkit.py:424-486 | a remove takes exactly the key named out of the map and keeps both tables in step, if and only if the position is not negative where it names a valid slot; every error is reported and changes nothing |
| `HashToolkit.Toolkit.RemoveIs` | comp/mvb_tools/storage/mvb_hash_table_simple/sw/toolkit.py:424-486 | when a remove succeeds |
| `HashToolkit.Toolkit.CommReplace` | comp/mvb_tools/storage/mvb_hash_table_simple/sw/toolkit.py:381-422 | both tables stay in step if and only if the new key collides with no other record of the table and is not in the other table; the key list keeps its order, with the new key in the old one's place or, for a number counted from the end, one place before it; a key that does not fit its bit vector raises an error before anything changes |
| `HashToolkit.InsertedIs` | comp/mvb_tools/storage/mvb_hash_table_simple/sw/toolkit.py:411-413 | the new key takes the place of the old one; with a record number counted from the end it comes one place before it |
| `HashToolkit.Toolkit.CommClear` | comp/mvb_tools/storage/mvb_hash_table_simple/sw/toolkit.py:488-522 | the table named becomes empty, the other one is untouched |
| `HashToolkit.Toolkit.CommSave` | comp/mvb_tools/storage/mvb_hash_table_simple/sw/toolkit.py:574-631 | the file holds the parameters and the records of each table in order |
| `HashToolkit.Toolkit.CommLoad` | comp/mvb_tools/storage/mvb_hash_table_simple/sw/toolkit.py:633-729 | the tables of the file replace those of the toolkit; with one table in the file the second stays; a key that cannot be hashed ends the load with the records before it; a refused file leaves its hash key behind |
| `HashToolkit.Toolkit.MatchesIs` | comp/mvb_tools/storage/mvb_hash_table_simple/sw/toolkit.py:671-682 | the parameters a file has to share with a connected component |
| `HashToolkit.SaveAndLoad` | comp/mvb_tools/storage/mvb_hash_table_simple/sw/toolkit.py:574-729 | saved and loaded into another toolkit, key lists and counters come back; the pair is in step, and then stands for the same map, if and only if no two keys of the Toeplitz table collide under the hash key that was saved; with one table, what was put into the second is not saved |
| `HashToolkit.RefusedLoadThenSave` | comp/mvb_tools/storage/mvb_hash_table_simple/sw/toolkit.py:669-681 | the input that fails: a refused file with hash key 0, and then a save, with two keys or more in the Toeplitz table |
| `HashToolkit.SaveLoadUnder` | comp/mvb_tools/storage/mvb_hash_table_simple/sw/toolkit.py:591-724 | the same for the pair of tables and any hash key, since the simple hash does not depend on it |
| `HashToolkit.SaveLoad` | comp/mvb_tools/storage/mvb_hash_table_simple/sw/toolkit.py:591-724 | saving and loading a pair in step gives back both key lists, counters, valid slots and the map |
| `HashToolkit.LoadPair` | comp/mvb_tools/storage/mvb_hash_table_simple/sw/toolkit.py:699-720 | loaded tables are in step if and only if every key can be hashed, neither has colliding records and no key is in both |
| `HashToolkit.Toolkit.constructor` | comp/mvb_tools/storage/mvb_hash_table_simple/sw/toolkit.py:72-102 | a new toolkit is empty and in step |
| `HashToolkit.HashTable.RemoveRecord` | comp/mvb_tools/storage/mvb_hash_table_simple/sw/toolkit.py:447-460 | by record number, negative ones counting from the end |
| `HashToolkit.HashTable.RemoveHash` | comp/mvb_tools/storage/mvb_hash_table_simple/sw/toolkit.py:462-483 | by position, with the search for its key |
| `HashToolkit.HashTable.LoadRecords` | comp/mvb_tools/storage/mvb_hash_table_simple/sw/toolkit.py:708-724 | the inner loop of the load, which a key that cannot be hashed ends |
| `HashToolkit.HashTable.SaveRecords` | comp/mvb_tools/storage/mvb_hash_table_simple/sw/toolkit.py:615-625 | the inner loop of the save |
| `HashFunctions.ToeplitzLinear` | comp/mvb_tools/storage/mvb_hash_table_simple/sw/toolkit.py:790-820 | the Toeplitz hash is linear over xor, two keys collide exactly when their xor hashes to 0, and every hash is below 2^hash_width |
| `HashFunctions.ToeplitzBit` | comp/mvb_tools/storage/mvb_hash_table_simple/sw/toolkit.py:810-816 | bit j of the hash of key bit i is bit hash_key_width - hash_width - (mvb_key_width - 1 - i) + j of the hash key |
| `HashFunctions.ToeplitzTop` | comp/mvb_tools/storage/mvb_hash_table_simple/sw/toolkit.py:811-812 | the top key bit hashes to the top hash_width bits of the hash key |
| `HashFunctions.LinearDetermined` | comp/mvb_tools/storage/mvb_hash_table_simple/sw/toolkit.py:790-820 | these values and linearity determine the hash of every key |
| `HashFunctions.ToeplitzHash` | comp/mvb_tools/storage/mvb_hash_table_simple/sw/toolkit.py:790-820 | the loop over the key bits accumulates the selected slices, all inside the hash key; a key that does not fit `mvb_key_width` bits is an error |
| `HashFunctions.SimpleXorCollides` | comp/mvb_tools/storage/mvb_hash_table_simple/sw/toolkit.py:823-845 | two keys collide exactly when their low bits agree, whatever the hash key |
| `HashFunctions.SimpleXorBit` | comp/mvb_tools/storage/mvb_hash_table_simple/sw/toolkit.py:836-845 | each bit of the simple hash tells whether key and hash key differ there |
| `HashFunctions.XorIsZero` | comp/mvb_tools/storage/mvb_hash_table_simple/sw/toolkit.py:818-818 | xor is zero exactly for equal operands |
| `EthernetRate.WindowBound` | python/cocotbext/cocotbext/ofm/base/generators.py:96-109 | in every window of calls, what was charged beyond target_rate times the items is at most the rate at its end |
| `EthernetRate.WindowAttained` | python/cocotbext/cocotbext/ofm/base/generators.py:96-109 | the bound is attained: the rate is the largest excess of any window of calls that ends there |
| `EthernetRate.ChargedIs` | python/cocotbext/cocotbext/ofm/base/generators.py:102-105 | what a run charges: its data items, and 24 for each packet that ends |
| `EthernetRate.AvstEthDriver.SendThread` | python/cocotbext/cocotbext/ofm/avst_eth/drivers.py:58-77 | over any queue of packets and pauses the bus carries exactly the packets' bytes in order, the rate never exceeds target_rate * (bus_width + 1) + longest packet + 24, and but for pauses an idle word is only sent while some window of calls that ends with it still exceeds its share by that of one item |
| `EthernetRate.AvstEthDriver.IdleLoop` | python/cocotbext/cocotbext/ofm/avst_eth/drivers.py:69-75 | the idle loop ends after at most one burst, in which the rate is never clamped, and leaves less than target_rate * (bus_width + 1) |
| `EthernetRate.AvstEthDriver.Burst` | python/cocotbext/cocotbext/ofm/avst_eth/drivers.py:74-75 | the burst lowers the rate by exactly its share |
| `EthernetRate.AvstEthDriver.SendPacket` | python/cocotbext/cocotbext/ofm/avst_eth/drivers.py:79-124 | a packet's words carry exactly its bytes between one start and one end, charge its length and overhead once, and account for whole words |
| `EthernetRate.AvstEthDriver.SendWord` | python/cocotbext/cocotbext/ofm/avst_eth/drivers.py:99-124 | one word: the empty signal counts the unused items of the segment or word the packet ends in, the rest of the word is zeros |
| `EthernetRate.AvstEthDriver.SendNext` | python/cocotbext/cocotbext/ofm/avst_eth/drivers.py:63-77 | one turn: idle loop, then a packet or an idle word |
| `EthernetRate.IdleWordDrops` | python/cocotbext/cocotbext/ofm/base/generators.py:91-109 | an idle word of a burst lowers rate and idle demand by exactly its width, without the clamp |
| `EthernetRate.IdleItemsIs` | python/cocotbext/cocotbext/ofm/base/generators.py:91-94 | what `get` returns brackets the rate between its own and one more item's share |
| `EthernetRate.RateGrowth` | python/cocotbext/cocotbext/ofm/base/generators.py:96-109 | the rate grows by at most what is charged |
| `EthernetRate.EthernetRateLimiter.Get` | python/cocotbext/cocotbext/ofm/base/generators.py:91-94 | the items returned bracket the rate between their own and one more item's share |
| `EthernetRate.EthernetRateLimiter.Configure` | python/cocotbext/cocotbext/ofm/base/generators.py:76-89 | at the target rate and clock the bus carries exactly the configured bit rate |
| `ItemRate.ItemRateLimiter.Run` | python/cocotbext/cocotbext/ofm/base/generators.py:160-195 | over any run of rounds with bursts of at most K items, exactly the data is sent and what is owed stays within 0 and 1 + rK / (1 - r) |
| `ItemRate.ItemRateLimiter.Round` | python/cocotbext/cocotbext/ofm/base/generators.py:160-195 | one round keeps that bound |
| `ItemRate.BoundHolds` | python/cocotbext/cocotbext/ofm/base/generators.py:172-179 | the bound reproduces itself |
| `ItemRate.AfterIdles` | python/cocotbext/cocotbext/ofm/base/generators.py:179-187 | inserting what `get` returns leaves between r and r plus one minus r of the deficit |
| `ItemRate.ItemRateLimiter.Get` | python/cocotbext/cocotbext/ofm/base/generators.py:179-187 | the whole items owed, never negative |
| `FlSimText.TextRoundTrip` | comp/fl_tools/debug/sim/sw/sim2pcap.py:28-55 | decoding the text of any list of packets gives back exactly the packets that are not empty, tails of one to three bytes included |
| `FlSimText.EncodeAndDecode` | comp/fl_tools/debug/sim/sw/sim2pcap.py:28-55 | writing packets as text and reading them gives back exactly those that are not empty |
| `FlSimText.EncodeAll` | comp/fl_tools/debug/sim/sw/pcap2sim.py:45-77 | the encoder writes that text |
| `FlSimText.EncodePacket` | comp/fl_tools/debug/sim/sw/pcap2sim.py:47-75 | the lines of one packet |
| `FlSimText.EncodeWord` | comp/fl_tools/debug/sim/sw/pcap2sim.py:59-73 | the four index patterns reverse the byte pairs |
| `FlSimText.FirstLine` | comp/fl_tools/debug/sim/sw/pcap2sim.py:47-74 | each line writes up to four bytes as a lower-case hexadecimal number of two digits a byte, the first byte lowest |
| `FlSimText.PacketsAre` | comp/fl_tools/debug/sim/sw/pcap2sim.py:74-77 | the lines of each packet are followed by a line with the mark |
| `FlSimText.DecodeAll` | comp/fl_tools/debug/sim/sw/sim2pcap.py:28-55 | the decoder on any text: its packets, or the error of a pair that is no number |
| `FlSimText.DecodeWord` | comp/fl_tools/debug/sim/sw/sim2pcap.py:35-42 | the decoder's branches undo the reversal; other lengths are skipped |
| `FlSimText.GatherBytes` | comp/fl_tools/debug/sim/sw/sim2pcap.py:43-48 | pairs of digits to bytes |
| `FlSimText.PairIs` | comp/fl_tools/debug/sim/sw/sim2pcap.py:43-48 | a pair of characters is read as `int` reads it: blanks around it, a sign, digits of either case |
| `FlSimText.SwapTwice` | comp/fl_tools/debug/sim/sw/sim2pcap.py:35-42 | reversing pairs twice changes nothing |
| `FlSimText.LinesBack` | comp/fl_tools/debug/sim/sw/sim2pcap.py:32-42 | the words of a packet's lines give its digits back |
| `FlSimText.SplitFirst` | comp/fl_tools/debug/sim/sw/sim2pcap.py:29-32 | a part without the mark is split off whole |
| `DataLogger.DataLogger.Select` | comp/debug/data_logger/sw/data_logger/data_logger.py:63-75 | the device ends up as if every given selector had been written, and each cached selector equals its register |
| `DataLogger.DataLogger.StatRead` | comp/debug/data_logger/sw/data_logger/data_logger.py:109-131 | the value is that of a version without caches, for every statistic and its width, errors included |
| `DataLogger.StatBack` | comp/debug/data_logger/sw/data_logger/data_logger.py:109-131 | whatever the device holds is read back if it fits the width the device reports: VALUE_WIDTH + SUM_EXTRA_WIDTH for sums, VALUE_WIDTH for minimum and maximum, HIST_BOX_WIDTH for the histogram, CTRLO_WIDTH, CTRLI_WIDTH and CNTER_WIDTH for theirs |
| `DataLogger.HistBack` | comp/debug/data_logger/sw/data_logger/data_logger.py:133-137 | the same for a histogram box |
| `DataLogger.WideBack` | comp/debug/data_logger/sw/data_logger/data_logger.py:96-107 | a value that fits the width it is read with is read back from its slices |
| `DataLogger.ConfigIs` | comp/debug/data_logger/sw/data_logger/data_logger.py:139-174 | the other parameters by their numbers; no statistic of a value beyond the reported count is read |
| `DataLogger.DataLogger.HistRead` | comp/debug/data_logger/sw/data_logger/data_logger.py:133-137 | likewise for histogram boxes |
| `DataLogger.DataLogger.LoadSlices` | comp/debug/data_logger/sw/data_logger/data_logger.py:99-107 | the slices joined low slice first |
| `DataLogger.DataLogger.LoadConfig` | comp/debug/data_logger/sw/data_logger/data_logger.py:139-175 | the configuration is the one the device holds |
| `DataLogger.DataLogger.RstSelection` | comp/debug/data_logger/sw/data_logger/data_logger.py:77-83 | no cached selector outlives a reset |
| `DataLogger.DataLogger.Rst` | comp/debug/data_logger/sw/data_logger/data_logger.py:91-97 | after a reset into any state the cache is coherent and the configuration new |
| `DataLogger.DataLogger.constructor` | comp/debug/data_logger/sw/data_logger/data_logger.py:57-61 | the cache is coherent whatever the registers held |
| `DataLogger.DataLogger.SetCtrlo` | comp/debug/data_logger/sw/data_logger/data_logger.py:187-195 | the slices of the control output are those of the value, nothing else changes |
| `DataLogger.DataLogger.SetAndLoadCtrlo` | comp/debug/data_logger/sw/data_logger/data_logger.py:181-195 | a value that fits the control output is read back |
| `SliceCodec.GetBitsIs` | comp/debug/data_logger/sw/data_logger/data_logger.py:228-238 | `get_bits`, by way of binary text, equals (val >> pos) mod 2^width if and only if width and pos are not both 0, or val is |
| `SliceCodec.CutDigits` | comp/debug/data_logger/sw/data_logger/data_logger.py:229-234 | the text slice holds exactly those digits |
| `SliceCodec.BinBack` | comp/debug/data_logger/sw/data_logger/data_logger.py:229-238 | binary text and number are inverse |
| `AmmBuffer.MemTester.SetBuff` | comp/debug/mem_tester/sw/mem_tester.py:243-254 | exactly the burst's slices change, and the address register is restored |
| `AmmBuffer.MemTester.GetBuff` | comp/debug/mem_tester/sw/mem_tester.py:256-273 | each burst's slices joined, and the address register restored |
| `AmmBuffer.MemTester.SetAndGet` | comp/debug/mem_tester/sw/mem_tester.py:243-273 | setting every burst and reading the buffer gives all values back |
| `AmmBuffer.AMMHexaToMISlices` | comp/debug/mem_tester/sw/c_base/common.c:137-165 | for any hex text that fits, the slices, low one first, make up the number its digits write, with the unsigned wrap in the buffer index |
| `AmmBuffer.TakeChar` | comp/debug/mem_tester/sw/c_base/common.c:151-161 | one character of the loop |
| `AmmBuffer.SliceNext` | comp/debug/mem_tester/sw/c_base/common.c:155-160 | eight digits become the next slice |
| `AmmBuffer.LastSlice` | comp/debug/mem_tester/sw/c_base/common.c:163-164 | what is left becomes the last slice |
| `AmmBuffer.TmpIndex` | comp/debug/mem_tester/sw/c_base/common.c:153-153 | the wrapping index runs down the buffer |
| `AmmBuffer.MemTesterC.FillManualBuff` | comp/debug/mem_tester/sw/c_base/core.c:585-598 | the burst holds that number, nothing else changes, the address is restored |
| `AmmBuffer.MemTesterC.PrintManualBuff` | comp/debug/mem_tester/sw/c_base/core.c:562-583 | one line for each burst, high slice first |
| `AmmBuffer.MemTesterC.FillAndPrint` | comp/debug/mem_tester/sw/c_base/core.c:562-598 | a text that is filled in is printed in upper case after leading zeros |
| `AmmBuffer.PrintedIs` | comp/debug/mem_tester/sw/c_base/core.c:573-578 | the printed slices are the number in fixed width |
| `HexDigits.DigitsBack` | comp/debug/mem_tester/sw/c_base/core.c:577-577 | printing the number a text writes gives the text back, zero-padded, in upper case |
| `HexDigits.PrintedBack` | comp/debug/mem_tester/sw/c_base/core.c:577-577 | a number that fits its digits is printed with the digits that write it |
| `HexDigits.DigitsAre` | comp/debug/mem_tester/sw/c_base/core.c:577-577 | the sixteen digits of both cases, and no others |
| `CombinationExpansion.TransformList` | python/harp/comp_settings/config_transform.py:124-154 | the result holds exactly the stripped prefix-and-choice vectors that stay non-empty after every choice list, each once; no name at all is an error |
| `CombinationExpansion.EntriesInOrder` | python/harp/comp_settings/config_transform.py:130-134 | names and choice lists keep the order of the entries |
| `CombinationExpansion.StripIs` | python/harp/comp_settings/config_transform.py:140-142 | stripping keeps the non-empty names in order |
| `CombinationExpansion.NextList` | python/harp/comp_settings/config_transform.py:147-152 | one choice list |
| `CombinationExpansion.Extend` | python/harp/comp_settings/config_transform.py:148-148 | every vector on hand with every choice |
| `CombinationExpansion.ExpansionStep` | python/harp/comp_settings/config_transform.py:147-152 | step by step stripping equals stripping whole vectors |
| `CombinationExpansion.CartesianProduct` | python/harp/comp_settings/config_transform.py:26-65 | the rows are those of the product; no table or a shared column name is an error; every table but the first keeps the helper column, and no other column changes |
| `CombinationExpansion.ProductRow` | python/harp/comp_settings/config_transform.py:57-61 | row i is the merge of the rows its mixed-radix digits select |
| `CombinationExpansion.ProductCount` | python/harp/comp_settings/config_transform.py:57-61 | there are as many rows as the row counts multiply to |
| `CombinationExpansion.RowDigits` | python/harp/comp_settings/config_transform.py:57-61 | every row number has digits |
| `CombinationExpansion.SecondProduct` | python/harp/comp_settings/config_transform.py:45-61 | after a product that succeeds, a second one over the same tables is refused if and only if there are three or more, or two of which the first has a column of the helper's name or is the second one |
| `CombinationExpansion.ColumnsDisjoint` | python/harp/comp_settings/config_transform.py:45-51 | the check of column names |

## Left out

- ParserRand.Choices: which entry of positive weight is drawn, and how often, is left open.
- TxRing.QueueNdpTx.UpdateDescUpperAddress: the encoding of descriptors and the upper address itself, which belong to the controller library.
- ItemRate.ItemRateLimiter.Get: the random mode and the mode with percentage 0.
- EthernetRate.EthernetRateLimiter.Configure: floating-point rounding; rates are reals.
- HashToolkit.Toolkit.CommLoad: files with missing or malformed fields, negative keys among them, and files whose hash key is wider than their `hash_key_width`, under which the Toeplitz hash raises an error.
- HashToolkit.SaveAndLoad: a hash key left behind by a refused file that is too wide for the toolkit's own `hash_key_width`.
- AmmBuffer.AMMHexaToMISlices: texts with other characters than hex digits, for which `strtoul` stops early.
- CombinationExpansion.TransformList: the order in which `set` yields the vectors.
- Sleeps, signals, PCAP files, `pkt_num` and the dummy memories of the frame tools; frames and words are sequences.
- Header contents, fuzzing and minimum sizes of generated packets; a packet is the sequence of its protocols.
- User weights for edges a table does not have: with them a walk need not end.
- The RCB = 1 branches of the simulation, its printing and the transcript parser.
- The receive side of the NDP queue, which never refreshes its free count.
- Committing hash tables to the component, prompts, printing and YAML syntax.
- PCAP headers and time stamps around the FL_SIM text.
- `sze2sim.py`, plots, reports, speed meters and parameter tables: no logic beyond single loops.
- gRPC, POSIX queue, DPI, libpcap and register plumbing: calls into code outside the repository.
