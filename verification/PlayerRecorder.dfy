// The promises of player and recorder taken together, and where they end.
module PlayerRecorder {
  import opened Numbers
  import opened Options
  import opened MfbStream
  import opened FrameRecorder
  import opened CapturedWords
  import opened RecorderStream
  import opened RecorderExactness
  import opened FrameLayout
  import opened MfbRoundTrip
  import opened FrameCount
  import opened LastWordGap
  import opened SkippedSlots
  import opened FrameFit
  import opened GapFrames

  // The layout of a run over the packet list.
  function Played(m: Mfb, depth: nat, packets: seq<seq<byte>>): Layout
    requires m.Valid()
  {
    Place(m, depth, EMPTY, packets)
  }

  // The frames the run puts on the bus.
  function PlayedFrames(m: Mfb, depth: nat, packets: seq<seq<byte>>): seq<seq<byte>>
    requires m.Valid()
  {
    Placed(m, depth, EMPTY, packets)
  }

  ghost predicate RoundTrips(m: Mfb, depth: nat, packets: seq<seq<byte>>)
    requires m.Valid()
  {
    var r := Recorded(m, Played(m, depth, packets));
    r.Success? && r.value.packets == PlayedFrames(m, depth, packets)
  }

  lemma PlayedGood(m: Mfb, depth: nat, packets: seq<seq<byte>>)
    requires m.Valid()
    ensures GoodLayout(m, Played(m, depth, packets))
    ensures Meaning(m, Played(m, depth, packets)) == Progress(None, PlayedFrames(m, depth, packets))
  {
    hide GoodLayout, Meaning, Regular, Place, Placed;
    EmptyGood(m);
    PlaceGood(m, depth, EMPTY, packets);
    assert [] + PlayedFrames(m, depth, packets) == PlayedFrames(m, depth, packets);
  }

  // ---------------------------------------------------------------- nothing to play

  lemma {:induction false} PlacedNothing(m: Mfb, depth: nat, lay: Layout, packets: seq<seq<byte>>)
    requires m.Valid() && |lay.cur| <= m.Slots()
    ensures Place(m, depth, lay, packets).cur == [] ==>
      Place(m, depth, lay, packets) == lay && Placed(m, depth, lay, packets) == []
    decreases |packets|
  {
    hide HasRoom, PlaceBlocks, Chunks;
    if packets != [] && HasRoom(m, depth, lay, packets[|packets| - 1]) {
      var frame := packets[|packets| - 1];
      if frame == [] {
        NoChunks(m, lay);
      } else {
        SomeChunks(m, frame);
        PlaceBlocksSlots(m, lay, Chunks(m, frame), |Chunks(m, frame)|);
      }
      PlacedNothing(m, depth, PlaceFrame(m, lay, frame), packets[..|packets| - 1]);
    }
  }

  lemma SomeChunks(m: Mfb, frame: seq<byte>)
    requires m.Valid() && frame != []
    ensures Chunks(m, frame) != []
  {
  }

  // Even then one word is written; it is idle and captures nothing.
  lemma IdleWord(m: Mfb)
    requires m.Valid()
    ensures Recorded(m, EMPTY).Success? && Recorded(m, EMPTY).value.packets == []
  {
    hide Feed, Encode, SingleMarks;
    var ws := IdleImage(m);
    IdleFeed(m, ws);
    assert Run(m, Emitted(m, EMPTY), 0) == Success(State([], []));
    RunStep(m, Emitted(m, EMPTY), 0, State([], []));
  }

  // The slots of that word: pads alone.
  lemma IdleImage(m: Mfb) returns (ws: seq<Slot>)
    requires m.Valid()
    ensures WordSlots(m, ws) && NoneFrom(ws, Sof, 0) && NoneFrom(ws, Eof, 0)
    ensures Emitted(m, EMPTY) == [Encode(m, ws, Flat(ws))]
  {
    hide Encode, SingleMarks, Emitted, Encoded, Flat;
    ws := [] + Pads(m, m.Slots());
    EmittedEncoded(m, EMPTY);
    SingleNothing(m, Sof, m.regions);
    SingleNothing(m, Eof, m.regions);
    SingleStartPads(m, m.Slots());
    SingleEndPads(m, [], m.Slots());
    assert BusWords(m, EMPTY) == [ws];
    EncodedOne(m, ws);
  }

  lemma EncodedOne(m: Mfb, ws: seq<Slot>)
    ensures Encoded(m, [ws]) == [Encode(m, ws, Flat(ws))]
  {
    hide Encode, Flat;
  }

  lemma IdleFeed(m: Mfb, ws: seq<Slot>)
    requires WordSlots(m, ws) && NoneFrom(ws, Eof, 0)
    ensures Feed(m, State([], []), Encode(m, ws, Flat(ws))).Success?
    ensures Feed(m, State([], []), Encode(m, ws, Flat(ws))).value.packets == []
  {
    FeedNoEnd(m, START, ws, State([], []));
  }

  lemma {:induction false} SingleStartPads(m: Mfb, n: nat)
    ensures SingleMarks(m, [] + Pads(m, n), Sof, m.regions)
  {
    hide SingleMarks;
    if n == 0 {
      assert [] + Pads(m, 0) == [];
      SingleNothing(m, Sof, m.regions);
    } else {
      SingleStartPads(m, n - 1);
      SingleAppend(m, [] + Pads(m, n - 1), PadSlot(m), Sof, m.regions);
      assert [] + Pads(m, n - 1) + [PadSlot(m)] == [] + Pads(m, n);
    }
  }

  // ---------------------------------------------------------------- the exact round trip

  // For every packet list, configuration and FIFO depth: what is recorded is exactly what was
  // played if and only if no region was given two frame ends, no frame but the last is a
  // single byte, and every block placed after a skipped slot of the last word is zeros.
  lemma RoundTripExact(m: Mfb, depth: nat, packets: seq<seq<byte>>)
    requires m.Valid()
    ensures RoundTrips(m, depth, packets) <==> (
      && SingleEnds(m, Played(m, depth, packets))
      && LongButLast(PlayedFrames(m, depth, packets))
      && ZeroAfterGap(m, Played(m, depth, packets).cur))
  {
    hide GoodLayout, Meaning, Place, Placed, SingleEnds, Recorded, ZeroAfterGap, LongButLast, Tidy;
    var lay := Played(m, depth, packets);
    PlayedGood(m, depth, packets);
    if !SingleEnds(m, lay) {
      DoubleEndLoses(m, lay);
    } else if lay.cur == [] {
      NoFrames(m, depth, packets);
    } else {
      TidyNothing();
      PlacedTidy(m, depth, EMPTY, packets);
      LayoutRoundTrip(m, lay);
    }
  }

  // How the run fills regions and words, computed from the sizes of the packets.
  function Filled(m: Mfb, depth: nat, packets: seq<seq<byte>>): Fill
    requires m.Valid()
  {
    FillAll(m, depth, NO_FILL, Sizes(m, packets))
  }

  // What the sizes say about the layout: the full words, whether two frames end in one
  // region, and whether a slot of the last word is skipped.
  lemma FilledIs(m: Mfb, depth: nat, packets: seq<seq<byte>>)
    requires m.Valid()
    ensures Filled(m, depth, packets).words == |Played(m, depth, packets).sent|
    ensures SingleEnds(m, Played(m, depth, packets)) <==> !Filled(m, depth, packets).shared
    ensures AllUsed(Played(m, depth, packets).cur) <==> !Filled(m, depth, packets).gap
  {
    hide Shows, FillAll, Place, SingleEnds, AllUsed, GoodLayout, Regular;
    ShowsNothing(m);
    EmptySingle(m);
    ShowsAll(m, depth, EMPTY, NO_FILL, packets);
    EndsAll(m, depth, EMPTY, NO_FILL, packets);
    ShowsParts(m, Played(m, depth, packets), Filled(m, depth, packets));
  }

  lemma EmptySingle(m: Mfb)
    requires m.Valid()
    ensures SingleEnds(m, EMPTY) && EndsFrame(EMPTY)
  {
    SingleNothing(m, Eof, m.regions);
  }

  // How many of the frames played lie behind a skipped slot of the last word.
  function Behind(m: Mfb, depth: nat, packets: seq<seq<byte>>): nat
    requires m.Valid()
  {
    BehindSkip(m, depth, NO_FILL, 0, Sizes(m, packets))
  }

  // The same condition on the packets: from their sizes one can tell whether two frames end
  // in one region and how many frames lie behind a skipped slot of the last word.
  lemma RoundTripOnSizes(m: Mfb, depth: nat, packets: seq<seq<byte>>)
    requires m.Valid()
    ensures RoundTrips(m, depth, packets) <==> (
      && !Filled(m, depth, packets).shared
      && LongButLast(PlayedFrames(m, depth, packets))
      && LastZeros(PlayedFrames(m, depth, packets), Behind(m, depth, packets)))
  {
    hide RoundTrips, Filled, SingleEnds, AllUsed, ZeroAfterGap, LongButLast, Place, Placed, LastZeros, BehindSkip;
    RoundTripExact(m, depth, packets);
    FilledIs(m, depth, packets);
    ShowsNothing(m);
    LastZerosNone([]);
    NothingSkipped(m, EMPTY.cur);
    BehindAll(m, depth, EMPTY, NO_FILL, [], 0, packets);
    assert [] + PlayedFrames(m, depth, packets) == PlayedFrames(m, depth, packets);
  }

  // How many packets, from the end of the list, the FIFO has room for.
  function Taken(m: Mfb, depth: nat, f: Fill, sizes: seq<nat>): (k: nat)
    requires m.Valid()
    ensures k <= |sizes|
    decreases |sizes|
  {
    if sizes == [] then 0
    else
      var n := sizes[|sizes| - 1];
      if f.words + WordsRequired(m, n) > depth then 0
      else 1 + Taken(m, depth, if n == 0 then f else FillFrame(m, f, n), sizes[..|sizes| - 1])
  }

  // Those packets are played, the last one first and without the empty ones.
  lemma {:induction false} PlayedAre(m: Mfb, depth: nat, lay: Layout, f: Fill, packets: seq<seq<byte>>)
    requires m.Valid() && Shows(m, lay, f)
    ensures Placed(m, depth, lay, packets) == Reversed(packets[|packets| - Taken(m, depth, f, Sizes(m, packets))..])
    decreases |packets|
  {
    hide Shows, FillFrame, PlaceFrame, WordsRequired, Reversed, Taken, Sizes, CeilDiv, Chunks;
    if packets == [] {
      ReversedNothing(packets);
      TakenNothing(m, depth, f, packets);
    } else {
      var frame, rest := packets[|packets| - 1], packets[..|packets| - 1];
      ChunkCount(m, frame);
      ShowsWords(m, lay, f);
      TakenStep(m, depth, f, packets);
      if HasRoom(m, depth, lay, frame) {
        var g := ShowsFrame(m, lay, f, frame);
        PlayedAre(m, depth, PlaceFrame(m, lay, frame), g, rest);
        ReversedFrom(packets, |rest| - Taken(m, depth, g, Sizes(m, rest)));
      } else {
        ReversedNothing(packets);
      }
    }
  }

  lemma TakenNothing(m: Mfb, depth: nat, f: Fill, packets: seq<seq<byte>>)
    requires m.Valid() && packets == []
    ensures Taken(m, depth, f, Sizes(m, packets)) == 0
  {
  }

  lemma TakenStep(m: Mfb, depth: nat, f: Fill, packets: seq<seq<byte>>)
    requires m.Valid() && packets != []
    ensures var n := CeilDiv(|packets[|packets| - 1]|, m.blockSize);
      Taken(m, depth, f, Sizes(m, packets)) == if f.words + WordsRequired(m, n) > depth then 0
        else 1 + Taken(m, depth, if n == 0 then f else FillFrame(m, f, n), Sizes(m, packets[..|packets| - 1]))
  {
    hide FillFrame, WordsRequired, CeilDiv;
    assert Sizes(m, packets)[..|packets| - 1] == Sizes(m, packets[..|packets| - 1]);
  }

  lemma ReversedNothing(packets: seq<seq<byte>>)
    ensures Reversed(packets[|packets|..]) == []
  {
  }

  lemma ReversedFrom(packets: seq<seq<byte>>, k: nat)
    requires k < |packets|
    ensures var last, rest := packets[|packets| - 1], packets[..|packets| - 1];
      Reversed(packets[k..]) == (if last == [] then [] else [last]) + Reversed(rest[k..])
  {
    assert packets[k..][..|packets[k..]| - 1] == packets[..|packets| - 1][k..];
  }

  // A frame that ends one slot into a region, and a one-block frame behind it.
  const NARROW := Mfb(1, 2, 1)
  const AFTER_THREE := Fill(1, 1, 1, false, false, false)

  lemma DoubleEndInput()
    ensures NARROW.Valid() && SharesEnd(NARROW, AFTER_THREE, 1) && !RoundTrips(NARROW, 8, [[9], [1, 2, 3]])
  {
    hide RoundTrips, PlayedFrames, Played, ZeroAfterGap, FillFrame;
    var m := NARROW;
    var ns: seq<nat> := [1, 3];
    NarrowSizes();
    ThreeBlocks();
    SharedIs(m, AFTER_THREE, 1);
    var g := FillFrame(m, AFTER_THREE, 1);
    assert ns[..1] == [1] && ns[..1][..0] == [];
    assert FillAll(m, 8, g, []) == g;
    assert FillAll(m, 8, AFTER_THREE, ns[..1]) == g;
    assert FillAll(m, 8, NO_FILL, ns) == g;
    RoundTripOnSizes(m, 8, [[9], [1, 2, 3]]);
  }

  lemma NarrowSizes()
    ensures Sizes(NARROW, [[9], [1, 2, 3]]) == [1, 3]
  {
    assert CeilDiv(2, 1) == 2 && CeilDiv(1, 1) == 1;
  }

  lemma ThreeBlocks()
    ensures FillFrame(NARROW, NO_FILL, 3) == AFTER_THREE
    ensures WordsRequired(NARROW, 3) == 2 && WordsRequired(NARROW, 1) == 1
  {
    assert WordsRequired(NARROW, 1) == 1 && Level(NARROW, 1) == 1;
    assert WordsRequired(NARROW, 3) == 2 && Level(NARROW, 3) == 1;
    assert InWord(NARROW, 2) == 1 && WordsBefore(NARROW, 2) == 1;
  }

  lemma TidyNothing()
    ensures Tidy([])
  {
  }

  lemma NoFrames(m: Mfb, depth: nat, packets: seq<seq<byte>>)
    requires m.Valid() && Played(m, depth, packets).cur == []
    ensures RoundTrips(m, depth, packets) && LongButLast(PlayedFrames(m, depth, packets))
    ensures ZeroAfterGap(m, Played(m, depth, packets).cur)
  {
    hide Place, Placed, Recorded;
    PlacedNothing(m, depth, EMPTY, packets);
    IdleWord(m);
  }

  // ---------------------------------------------------------------- a run after an empty one

  // The words of an empty run and then those of a run with frames, read as one capture: the
  // recorder raises its no-start error.
  lemma EmptyRunFirst(m: Mfb, depth: nat, packets: seq<seq<byte>>)
    requires m.Valid() && !Filled(m, depth, packets).shared && PlayedFrames(m, depth, packets) != []
    ensures var bws := Emitted(m, EMPTY) + Emitted(m, Played(m, depth, packets));
      Run(m, bws, |bws|) == Failure(NoStartDetected)
  {
    hide *;
    var lay := Played(m, depth, packets);
    PlayedGood(m, depth, packets);
    PlayedParts(m, depth, packets);
    FilledIs(m, depth, packets);
    var ws := IdleImage(m);
    var wss := ReadStream(m, lay);
    ConformingValid(m, wss);
    LengthsCount(Meaning(m, lay), ParseWords(m, wss, |wss|));
    IdleFirst(m, ws, wss);
    EncodedAfter(m, ws, wss);
  }

  lemma PlayedParts(m: Mfb, depth: nat, packets: seq<seq<byte>>)
    requires m.Valid() && PlayedFrames(m, depth, packets) != []
    ensures Played(m, depth, packets).cur != [] && Tidy(Played(m, depth, packets).cur)
  {
    hide Place, Placed, Tidy;
    PlacedNothing(m, depth, EMPTY, packets);
    TidyNothing();
    PlacedTidy(m, depth, EMPTY, packets);
  }

  lemma LengthsCount(p: Progress, q: Progress)
    requires SameLengths(p, q)
    ensures p.frames == [] <==> q.frames == []
  {
  }

  lemma EncodedAfter(m: Mfb, ws: seq<Slot>, wss: seq<seq<Slot>>)
    ensures Encoded(m, [ws] + wss) == [Encode(m, ws, Flat(ws))] + Encoded(m, wss)
    ensures |Encoded(m, wss)| == |wss|
  {
    hide Encode;
  }

  // Nothing, and then one frame of two bytes.
  lemma EmptyRunInput()
    ensures var m := Mfb(1, 1, 2);
      && m.Valid() && PlayedFrames(m, 8, [[1, 2]]) == [[1, 2]]
      && var bws := Emitted(m, EMPTY) + Emitted(m, Played(m, 8, [[1, 2]]));
      Run(m, bws, |bws|) == Failure(NoStartDetected)
  {
    hide Placed, Place, Filled, SingleEnds, Run, Emitted;
    var m := Mfb(1, 1, 2);
    var p: seq<seq<byte>> := [[1, 2]];
    assert p[..0] == [] && Chunks(m, [1, 2]) == [[1, 2]] && WordsRequired(m, 1) == 1;
    assert Reversed(p) == [[1, 2]] && TotalRequired(m, p) == 1;
    AllPlayed(m, 8, EMPTY, p);
    EmptyGood(m);
    LongFramesRegular(m, 8, EMPTY, p);
    FilledIs(m, 8, p);
    EmptyRunFirst(m, 8, p);
  }

  // ---------------------------------------------------------------- frames of at least a region

  lemma {:induction false} ChunksOfLong(m: Mfb, content: seq<byte>, n: nat)
    requires m.Valid() && |content| > m.Bytes(n)
    ensures |Chunks(m, content)| > n
    decreases n
  {
    if n > 0 && |content| > m.blockSize { ChunksOfLong(m, content[m.blockSize..], n - 1); }
  }

  // A frame a region cannot hold completely with room to spare.
  predicate LongFrame(m: Mfb, frame: seq<byte>)
    requires m.Valid()
  {
    |frame| >= 2 && |frame| > m.Bytes(m.regionSize - 1)
  }

  // Frames that need at least region_size blocks, and two bytes, always round-trip.
  lemma LongFramesRoundTrip(m: Mfb, depth: nat, packets: seq<seq<byte>>)
    requires m.Valid() && forall i :: 0 <= i < |packets| ==> LongFrame(m, packets[i])
    ensures RoundTrips(m, depth, packets)
  {
    hide Place, Placed, SingleEnds, RoundTrips;
    EmptyGood(m);
    forall i | 0 <= i < |packets|
      ensures |Chunks(m, packets[i])| >= m.regionSize
    {
      ChunksOfLong(m, packets[i], m.regionSize - 1);
    }
    LongFramesRegular(m, depth, EMPTY, packets);
    PlacedLong(m, depth, EMPTY, packets);
    RoundTripExact(m, depth, packets);
  }

  lemma {:induction false} PlacedLong(m: Mfb, depth: nat, lay: Layout, packets: seq<seq<byte>>)
    requires m.Valid() && forall i :: 0 <= i < |packets| ==> LongFrame(m, packets[i])
    ensures forall i :: 0 <= i < |Placed(m, depth, lay, packets)| ==> |Placed(m, depth, lay, packets)[i]| >= 2
    decreases |packets|
  {
    hide HasRoom, PlaceFrame;
    if packets != [] && HasRoom(m, depth, lay, packets[|packets| - 1]) {
      PlacedLong(m, depth, PlaceFrame(m, lay, packets[|packets| - 1]), packets[..|packets| - 1]);
    }
  }

  // ---------------------------------------------------------------- the FIFO

  // The player never writes more than one word beyond the FIFO depth.
  lemma FifoBound(m: Mfb, depth: nat, packets: seq<seq<byte>>)
    requires m.Valid()
    ensures |Emitted(m, Played(m, depth, packets))| <= depth + 1
  {
    hide Place;
    PlaceRoom(m, depth, EMPTY, packets);
  }

  // Exactly when it does so: the full words of the frames played fill the FIFO.
  lemma FifoExceeded(m: Mfb, depth: nat, packets: seq<seq<byte>>)
    requires m.Valid()
    ensures |Emitted(m, Played(m, depth, packets))| == Filled(m, depth, packets).words + 1
    ensures |Emitted(m, Played(m, depth, packets))| > depth <==> Filled(m, depth, packets).words == depth
  {
    hide Place, Filled, Encode;
    FilledIs(m, depth, packets);
    FifoBound(m, depth, packets);
  }

  // That word does occur: a one-slot word, a one-word FIFO and two frames give two words.
  lemma FifoOverrun()
    ensures var m := Mfb(1, 1, 1); m.Valid() && |Emitted(m, Played(m, 1, [[7], [9]]))| == 2
  {
    var m := Mfb(1, 1, 1);
    var p0: seq<seq<byte>> := [[7], [9]];
    var p1: seq<seq<byte>> := [[7]];
    assert p0[..1] == p1 && p1[..0] == [];
    assert m.Slots() == 1 && m.Base(1) == 1 by { assert Times(1, 1) == Times(0, 1) + 1; }
    OneChunk(m, 9);
    OneChunk(m, 7);
    var s0, s1 := BlockSlot(m, [[9]], 0), BlockSlot(m, [[7]], 0);
    PlaceOneChunk(m, EMPTY, 9);
    assert PlaceFrame(m, EMPTY, [9]) == Layout([], [s0]);
    PlaceOneChunk(m, Layout([], [s0]), 7);
    assert Settle(m, [s0], true) == [s0] + Pads(m, 0) == [s0];
    assert PlaceFrame(m, Layout([], [s0]), [7]) == Layout([[s0]], [s1]);
    assert Place(m, 1, EMPTY, p0) == Place(m, 1, Layout([], [s0]), p1);
    assert Place(m, 1, Layout([], [s0]), p1) == Place(m, 1, Layout([[s0]], [s1]), []);
  }

  lemma OneChunk(m: Mfb, b: byte)
    requires m == Mfb(1, 1, 1)
    ensures Chunks(m, [b]) == [[b]] && WordsRequired(m, 1) == 1
  {
  }

  lemma PlaceOneChunk(m: Mfb, lay: Layout, b: byte)
    requires m == Mfb(1, 1, 1)
    ensures PlaceFrame(m, lay, [b]) == PlaceBlock(m, lay, BlockSlot(m, [[b]], 0))
  {
    OneChunk(m, b);
    assert PlaceBlocks(m, lay, [[b]], 0) == lay;
  }

  // Words the frames of a list ask for.
  function TotalRequired(m: Mfb, packets: seq<seq<byte>>): nat
    requires m.Valid()
  {
    if packets == [] then 0
    else TotalRequired(m, packets[..|packets| - 1]) + WordsRequired(m, |Chunks(m, packets[|packets| - 1])|)
  }

  // The frames with bytes, last packet first.
  function Reversed(packets: seq<seq<byte>>): seq<seq<byte>> {
    if packets == [] then []
    else (if packets[|packets| - 1] == [] then [] else [packets[|packets| - 1]]) + Reversed(packets[..|packets| - 1])
  }

  // With room for the words all frames ask for, every frame is played, last packet first.
  lemma {:induction false} AllPlayed(m: Mfb, depth: nat, lay: Layout, packets: seq<seq<byte>>)
    requires m.Valid() && |lay.cur| <= m.Slots() && |lay.sent| + TotalRequired(m, packets) <= depth
    ensures Placed(m, depth, lay, packets) == Reversed(packets)
    decreases |packets|
  {
    if packets != [] {
      var frame := packets[|packets| - 1];
      var d := |lay.sent| + WordsRequired(m, |Chunks(m, frame)|);
      PlaceFrameRoom(m, d, lay, frame);
      AllPlayed(m, depth, PlaceFrame(m, lay, frame), packets[..|packets| - 1]);
    }
  }

  // A one-byte frame before another one: the round trip fails.
  lemma OneByteInput()
    ensures var m := Mfb(1, 1, 2); m.Valid() && !RoundTrips(m, 8, [[1, 2], [9]])
    ensures PlayedFrames(Mfb(1, 1, 2), 8, [[1, 2], [9]]) == [[9], [1, 2]]
  {
    hide RoundTrips, Placed, Place, ZeroAfterGap, SingleEnds;
    var m := Mfb(1, 1, 2);
    var p: seq<seq<byte>> := [[1, 2], [9]];
    assert p[..1] == [[1, 2]] && p[..1][..0] == [];
    assert Chunks(m, [9]) == [[9]] && Chunks(m, [1, 2]) == [[1, 2]] && WordsRequired(m, 1) == 1;
    assert TotalRequired(m, p[..1]) == 1 && TotalRequired(m, p) == 2;
    AllPlayed(m, 8, EMPTY, p);
    assert Reversed(p[..1]) == [[1, 2]] && Reversed(p) == [[9], [1, 2]];
    var fs := PlayedFrames(m, 8, p);
    assert fs == [[9], [1, 2]] && |fs[0]| == 1 && !LongButLast(fs);
    RoundTripExact(m, 8, p);
  }

  // Every limb the player writes is a 32-bit value.
  lemma {:induction false} UnpackFits(w: nat, x: nat, n: nat)
    ensures Fits(w, Unpack(w, x, n))
    decreases n
  {
    if n > 0 {
      UnpackFits(w, Shr(x, w), n - 1);
      Split(x, w);
    }
  }

  lemma EmittedLimbs(m: Mfb, lay: Layout)
    ensures forall k :: 0 <= k < |Emitted(m, lay)| ==> Fits(32, Emitted(m, lay)[k].limbs)
  {
    hide Unpack, Pack, Flat, UsedBytes;
    forall k | 0 <= k < |Emitted(m, lay)|
      ensures Fits(32, Emitted(m, lay)[k].limbs)
    {
      UnpackFits(32, Pack(8, if k < |lay.sent| then Flat(lay.sent[k]) else UsedBytes(lay.cur)), m.Transactions());
    }
  }

  // ---------------------------------------------------------------- a gap in the last word

  // Two frames of one block each, two slots per region: the second frame skips slot 1.
  const GAP := Mfb(2, 2, 2)
  const FIRST: Slot := Slot([1, 2], true, true, 1, true)
  const SECOND: Slot := Slot([3, 4], true, true, 1, true)

  function GapWord(): seq<Slot> {
    [FIRST, PadSlot(GAP), SECOND]
  }

  lemma GapBases()
    ensures GAP.Valid() && GAP.Base(0) == 0 && GAP.Base(1) == 2 && GAP.Slots() == 4
  {
    assert Times(1, 2) == 2;
  }

  lemma GapPlaced(b: byte, c: byte, lay: Layout)
    ensures PlaceFrame(GAP, lay, [b, c]) == PlaceBlock(GAP, lay, Slot([b, c], true, true, 1, true))
    ensures WordsRequired(GAP, |Chunks(GAP, [b, c])|) == 1
  {
    assert Chunks(GAP, [b, c]) == [[b, c]];
    assert BlockSlot(GAP, [[b, c]], 0) == Slot([b, c], true, true, 1, true);
    assert PlaceBlocks(GAP, lay, [[b, c]], 0) == lay;
  }

  lemma GapLayout()
    ensures Played(GAP, 8, [[3, 4], [1, 2]]) == Layout([], GapWord())
    ensures PlayedFrames(GAP, 8, [[3, 4], [1, 2]]) == [[1, 2], [3, 4]]
  {
    GapBases();
    var p0: seq<seq<byte>> := [[3, 4], [1, 2]];
    var p1: seq<seq<byte>> := [[3, 4]];
    assert p0[..1] == p1 && p1[..0] == [];
    var l0 := Layout([], [FIRST]);
    GapPlaced(1, 2, EMPTY);
    GapPlaced(3, 4, l0);
    assert PlaceFrame(GAP, EMPTY, [1, 2]) == l0;
    assert Level(GAP, 1) == 1 && [FIRST][0].sof;
    assert Settle(GAP, [FIRST], true) == [FIRST, PadSlot(GAP)];
    assert PlaceFrame(GAP, l0, [3, 4]) == Layout([], GapWord());
    assert Place(GAP, 8, EMPTY, p0) == Place(GAP, 8, l0, p1);
    assert Placed(GAP, 8, EMPTY, p0) == [[1, 2]] + Placed(GAP, 8, l0, p1);
    assert Place(GAP, 8, l0, p1) == Place(GAP, 8, Layout([], GapWord()), []);
    assert Placed(GAP, 8, l0, p1) == [[3, 4]] + Placed(GAP, 8, Layout([], GapWord()), []);
  }

  // Two frames of two bytes in a word that is not padded: the round trip fails.
  lemma GapLoses()
    ensures GAP.Valid() && !RoundTrips(GAP, 8, [[3, 4], [1, 2]])
    ensures PlayedFrames(GAP, 8, [[3, 4], [1, 2]]) == [[1, 2], [3, 4]]
  {
    hide RoundTrips, Place, Placed;
    GapBases();
    GapLayout();
    assert !GapWord()[1].used && GapWord()[2].used && GapWord()[2].data[0] == 3;
    assert !ZeroAfterGap(GAP, GapWord());
    RoundTripExact(GAP, 8, [[3, 4], [1, 2]]);
  }
}
