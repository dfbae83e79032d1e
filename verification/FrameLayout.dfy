// Where the frame player puts the blocks of its frames: a layout of block slots in words,
// and what the reference parser makes of it.
module FrameLayout {
  import opened Numbers
  import opened Options
  import opened MfbStream
  import opened RecorderStream

  // ---------------------------------------------------------------- one frame

  // _split: chunks of one block, the last one possibly shorter.
  function Chunks(m: Mfb, content: seq<byte>): (cs: seq<seq<byte>>)
    requires m.Valid()
    ensures content == [] <==> cs == []
    ensures forall i :: 0 <= i < |cs| ==> 0 < |cs[i]| <= m.blockSize && (i < |cs| - 1 ==> |cs[i]| == m.blockSize)
  {
    if content == [] then []
    else if |content| <= m.blockSize then [content]
    else [content[..m.blockSize]] + Chunks(m, content[m.blockSize..])
  }

  function Concat(cs: seq<seq<byte>>): seq<byte> {
    if cs == [] then [] else Concat(cs[..|cs| - 1]) + cs[|cs| - 1]
  }

  lemma {:induction false} ConcatFirst(c: seq<byte>, cs: seq<seq<byte>>)
    ensures Concat([c] + cs) == c + Concat(cs)
  {
    if cs == [] {
      assert ([c] + cs)[..0] == [];
      assert [c] + cs == [c];
      assert [] + c == c + [];
    } else {
      var n := |cs| - 1;
      ConcatFirst(c, cs[..n]);
      assert ([c] + cs)[..|cs|] == [c] + cs[..n];
    }
  }

  lemma {:induction false} ConcatChunks(m: Mfb, content: seq<byte>)
    requires m.Valid()
    ensures Concat(Chunks(m, content)) == content
    decreases |content|
  {
    if 0 < |content| <= m.blockSize {
      ConcatFirst(content, []);
      assert [content] + [] == [content];
      assert content + Concat([]) == content;
    } else if content != [] {
      ConcatFirst(content[..m.blockSize], Chunks(m, content[m.blockSize..]));
      ConcatChunks(m, content[m.blockSize..]);
      assert content[..m.blockSize] + content[m.blockSize..] == content;
    }
  }

  // _fill_zeros
  function Padded(m: Mfb, chunk: seq<byte>): seq<byte> {
    if |chunk| < m.blockSize then chunk + Repeat(0, m.blockSize - |chunk|) else chunk
  }

  // The slot of the i-th chunk of a frame.
  function BlockSlot(m: Mfb, cs: seq<seq<byte>>, i: nat): Slot
    requires i < |cs|
  {
    var last := i == |cs| - 1;
    Slot(Padded(m, cs[i]), i == 0, last, if last && cs[i] != [] then |cs[i]| - 1 else 0, true)
  }

  // ---------------------------------------------------------------- the layout

  // Words already sent and the slots of the word being filled.
  datatype Layout = Layout(sent: seq<seq<Slot>>, cur: seq<Slot>)

  const EMPTY := Layout([], [])

  function Pads(m: Mfb, n: nat): seq<Slot> {
    Repeat(PadSlot(m), n)
  }

  // Filled slots of the region that holds slot n - 1.
  function Level(m: Mfb, n: nat): (l: nat)
    requires m.Valid()
    ensures l <= m.regionSize && l <= n && (n > 0 ==> l > 0)
  {
    if n <= m.regionSize then n else Level(m, n - m.regionSize)
  }

  // A frame starts in the region being filled.
  predicate Started(m: Mfb, cur: seq<Slot>)
    requires m.Valid()
  {
    exists i :: |cur| - Level(m, |cur|) <= i < |cur| && cur[i].sof
  }

  // A new frame does not start in a region that already has a start.
  function Settle(m: Mfb, cur: seq<Slot>, first: bool): seq<Slot>
    requires m.Valid()
  {
    if first && Started(m, cur) then cur + Pads(m, m.regionSize - Level(m, |cur|)) else cur
  }

  // A full word is sent when the next block arrives.
  function PlaceBlock(m: Mfb, lay: Layout, s: Slot): Layout
    requires m.Valid()
  {
    var c := Settle(m, lay.cur, s.sof);
    if |c| == m.Slots() then Layout(lay.sent + [c], [s]) else Layout(lay.sent, c + [s])
  }

  function PlaceBlocks(m: Mfb, lay: Layout, cs: seq<seq<byte>>, n: nat): Layout
    requires m.Valid() && n <= |cs|
  {
    if n == 0 then lay else PlaceBlock(m, PlaceBlocks(m, lay, cs, n - 1), BlockSlot(m, cs, n - 1))
  }

  function PlaceFrame(m: Mfb, lay: Layout, frame: seq<byte>): Layout
    requires m.Valid()
  {
    PlaceBlocks(m, lay, Chunks(m, frame), |Chunks(m, frame)|)
  }

  // ceil(blocks / region_size)
  function WordsRequired(m: Mfb, blocks: nat): (w: nat)
    requires m.Valid()
    ensures blocks <= m.Base(w) && (w > 0 ==> m.Base(w - 1) < blocks)
  {
    if blocks == 0 then 0
    else if blocks <= m.regionSize then
      assert m.Base(1) == m.Base(0) + m.regionSize;
      1
    else 1 + WordsRequired(m, blocks - m.regionSize)
  }

  // A frame is placed when the words sent and the words it asks for fit the FIFO.
  predicate HasRoom(m: Mfb, depth: nat, lay: Layout, frame: seq<byte>)
    requires m.Valid()
  {
    |lay.sent| + WordsRequired(m, |Chunks(m, frame)|) <= depth
  }

  // Frames are taken from the end of the list until one does not fit.
  function Place(m: Mfb, depth: nat, lay: Layout, packets: seq<seq<byte>>): Layout
    requires m.Valid()
    decreases |packets|
  {
    if packets == [] then lay
    else
      var frame := packets[|packets| - 1];
      if HasRoom(m, depth, lay, frame) then Place(m, depth, PlaceFrame(m, lay, frame), packets[..|packets| - 1])
      else lay
  }

  // The frames placed, in bus order; a frame without bytes leaves no trace on the bus.
  function Placed(m: Mfb, depth: nat, lay: Layout, packets: seq<seq<byte>>): seq<seq<byte>>
    requires m.Valid()
    decreases |packets|
  {
    if packets == [] then []
    else
      var frame := packets[|packets| - 1];
      if HasRoom(m, depth, lay, frame) then
        (if frame == [] then [] else [frame]) + Placed(m, depth, PlaceFrame(m, lay, frame), packets[..|packets| - 1])
      else []
  }

  // The bytes of the slots that carry frame blocks.
  function UsedBytes(ws: seq<Slot>): seq<byte> {
    if ws == [] then []
    else UsedBytes(ws[..|ws| - 1]) + if ws[|ws| - 1].used then ws[|ws| - 1].data else []
  }

  // Everything the player writes: sent words are padded, the last word is not.
  function Emitted(m: Mfb, lay: Layout): seq<BusWord> {
    Encoded(m, lay.sent) + [Encode(m, lay.cur, UsedBytes(lay.cur))]
  }

  // ---------------------------------------------------------------- regions being filled

  // Slot n - 1 lies in region r, which Level(n) slots fill.
  lemma {:induction false} LevelRegion(m: Mfb, n: nat) returns (r: nat)
    requires m.Valid() && n > 0
    ensures n == m.Base(r) + Level(m, n)
    decreases n
  {
    if n <= m.regionSize {
      r := 0;
    } else {
      r := LevelRegion(m, n - m.regionSize);
      r := r + 1;
    }
  }

  // No slot of the region that slot |ws| falls into has the mark.
  ghost predicate FreshRegion(m: Mfb, ws: seq<Slot>, mark: Mark) {
    forall q, i :: m.Base(q) <= i < |ws| < m.Base(q) + m.regionSize ==> !ws[i].Has(mark)
  }

  lemma {:induction false} LastMarkSame(ws: seq<Slot>, s: Slot, mark: Mark, lo: nat, hi: nat)
    requires lo <= hi && (s.Has(mark) ==> hi <= |ws| || |ws| < lo)
    ensures LastMark(ws + [s], mark, lo, hi) == LastMark(ws, mark, lo, hi)
    decreases hi
  {
    if lo < hi && !(hi - 1 < |ws| && ws[hi - 1].Has(mark)) { LastMarkSame(ws, s, mark, lo, hi - 1); }
  }

  lemma {:induction false} SingleAppend(m: Mfb, ws: seq<Slot>, s: Slot, mark: Mark, n: nat)
    requires SingleMarks(m, ws, mark, n) && (s.Has(mark) ==> FreshRegion(m, ws, mark))
    ensures SingleMarks(m, ws + [s], mark, n)
    decreases n
  {
    hide FreshRegion;
    if n > 0 {
      SingleAppend(m, ws, s, mark, n - 1);
      SingleAppendRegion(m, ws, s, mark, n - 1);
    }
  }

  lemma SingleAppendRegion(m: Mfb, ws: seq<Slot>, s: Slot, mark: Mark, r: nat)
    requires SingleMark(m, ws, mark, r) && (s.Has(mark) ==> FreshRegion(m, ws, mark))
    ensures SingleMark(m, ws + [s], mark, r)
  {
    var lo := m.Base(r);
    if !(s.Has(mark) && lo <= |ws| < lo + m.regionSize) {
      LastMarkSame(ws, s, mark, lo, lo + m.regionSize);
    }
  }

  lemma FreshAfterSettle(m: Mfb, cur: seq<Slot>)
    requires m.Valid() && |cur| <= m.Slots()
    ensures |cur| <= |Settle(m, cur, true)| <= m.Slots()
    ensures FreshRegion(m, Settle(m, cur, true), Sof)
  {
    var c := Settle(m, cur, true);
    if cur != [] {
      var r := LevelRegion(m, |cur|);
      if r >= m.regions { TimesMonotone(m.regions, r, m.regionSize); }
      TimesMonotone(r + 1, m.regions, m.regionSize);
      forall q: nat, i: nat | m.Base(q) <= i < |c| < m.Base(q) + m.regionSize
        ensures !c[i].sof
      {
        if q > r { TimesMonotone(r + 1, q, m.regionSize); }
        if q < r { TimesMonotone(q + 1, r, m.regionSize); }
      }
    }
  }

  // ---------------------------------------------------------------- layouts conform

  // A word being filled after the progress p.
  ghost predicate GoodFill(m: Mfb, p: Progress, ws: seq<Slot>) {
    && |ws| <= m.Slots() && ValidSlots(m, ws) && Alternating(m, p, ws) && SingleMarks(m, ws, Sof, m.regions)
    && (ws == [] || p.open.Some? || ws[0].sof)
  }

  ghost predicate GoodSent(m: Mfb, sent: seq<seq<Slot>>) {
    && AllValid(m, sent)
    && forall k :: 0 <= k < |sent| ==> |sent[k]| == m.Slots() && GoodFill(m, ParseWords(m, sent, k), sent[k])
  }

  ghost predicate GoodLayout(m: Mfb, lay: Layout) {
    m.Valid() && GoodSent(m, lay.sent) && GoodFill(m, ParseWords(m, lay.sent, |lay.sent|), lay.cur)
  }

  // What the slots placed so far mean.
  function Meaning(m: Mfb, lay: Layout): Progress
    requires GoodLayout(m, lay)
  {
    Parse(m, ParseWords(m, lay.sent, |lay.sent|), lay.cur)
  }

  lemma ParseOne(m: Mfb, p: Progress, ws: seq<Slot>, s: Slot)
    requires ValidSlots(m, ws) && s.Valid(m)
    ensures ValidSlots(m, ws + [s]) && Parse(m, p, ws + [s]) == Step(Parse(m, p, ws), s)
  {
    assert (ws + [s])[..|ws|] == ws;
  }

  lemma AlternatingAppend(m: Mfb, p: Progress, ws: seq<Slot>, s: Slot)
    requires ValidSlots(m, ws) && s.Valid(m) && Alternating(m, p, ws)
    requires s.sof ==> Parse(m, p, ws).open.None?
    requires s.eof ==> s.sof || Parse(m, p, ws).open.Some?
    ensures ValidSlots(m, ws + [s]) && Alternating(m, p, ws + [s])
  {
    hide Parse;
    var t := ws + [s];
    assert t[..|ws|] == ws;
    forall i | 0 <= i < |ws|
      ensures t[..i] == ws[..i]
    {
    }
  }

  lemma FillAppend(m: Mfb, p: Progress, ws: seq<Slot>, s: Slot)
    requires m.Valid() && GoodFill(m, p, ws) && |ws| < m.Slots() && s.Valid(m)
    requires s.sof ==> Parse(m, p, ws).open.None? && FreshRegion(m, ws, Sof)
    requires s.eof ==> s.sof || Parse(m, p, ws).open.Some?
    requires ws == [] ==> p.open.Some? || s.sof
    ensures GoodFill(m, p, ws + [s])
    ensures Parse(m, p, ws + [s]) == Step(Parse(m, p, ws), s)
  {
    hide Parse, SingleMarks, Alternating, FreshRegion;
    SingleAppend(m, ws, s, Sof, m.regions);
    AlternatingAppend(m, p, ws, s);
    ParseOne(m, p, ws, s);
  }

  // Padding after a completed frame means nothing.
  lemma {:induction false} FillPads(m: Mfb, p: Progress, ws: seq<Slot>, n: nat)
    requires m.Valid() && GoodFill(m, p, ws) && |ws| + n <= m.Slots() && Parse(m, p, ws).open.None?
    requires ws != [] || n == 0
    ensures GoodFill(m, p, ws + Pads(m, n)) && Parse(m, p, ws + Pads(m, n)) == Parse(m, p, ws)
    decreases n
  {
    hide Parse, SingleMarks, Alternating;
    if n == 0 {
      assert ws + Pads(m, 0) == ws;
    } else {
      FillPads(m, p, ws, n - 1);
      FillAppend(m, p, ws + Pads(m, n - 1), PadSlot(m));
      assert ws + Pads(m, n - 1) + [PadSlot(m)] == ws + Pads(m, n);
    }
  }

  lemma {:induction false} ParseWordsPrefix(m: Mfb, wss: seq<seq<Slot>>, ws: seq<Slot>, n: nat)
    requires AllValid(m, wss) && ValidSlots(m, ws) && n <= |wss|
    ensures AllValid(m, wss + [ws]) && ParseWords(m, wss + [ws], n) == ParseWords(m, wss, n)
    decreases n
  {
    if n > 0 { ParseWordsPrefix(m, wss, ws, n - 1); }
  }

  lemma SentAppend(m: Mfb, sent: seq<seq<Slot>>, ws: seq<Slot>)
    requires GoodSent(m, sent) && |ws| == m.Slots() && GoodFill(m, ParseWords(m, sent, |sent|), ws)
    ensures GoodSent(m, sent + [ws])
    ensures ParseWords(m, sent + [ws], |sent| + 1) == Parse(m, ParseWords(m, sent, |sent|), ws)
  {
    hide Parse, GoodFill, ParseWords;
    GoodFillValid(m, ParseWords(m, sent, |sent|), ws);
    var t := sent + [ws];
    forall k | 0 <= k < |t|
      ensures AllValid(m, t) && |t[k]| == m.Slots() && GoodFill(m, ParseWords(m, t, k), t[k])
    {
      ParseWordsPrefix(m, sent, ws, k);
    }
    ParseWordsPrefix(m, sent, ws, |sent|);
    ParseWordsStep(m, t, |sent|);
  }

  lemma GoodFillValid(m: Mfb, p: Progress, ws: seq<Slot>)
    requires GoodFill(m, p, ws)
    ensures ValidSlots(m, ws)
  {
    hide SingleMarks, Alternating;
  }

  // A block continues the open frame, or starts one when none is open.
  ghost predicate Follows(p: Progress, s: Slot) {
    s.sof <==> p.open.None?
  }

  lemma SettleGood(m: Mfb, p: Progress, cur: seq<Slot>, s: Slot)
    requires m.Valid() && GoodFill(m, p, cur) && Follows(Parse(m, p, cur), s)
    ensures GoodFill(m, p, Settle(m, cur, s.sof)) && Parse(m, p, Settle(m, cur, s.sof)) == Parse(m, p, cur)
    ensures s.sof ==> FreshRegion(m, Settle(m, cur, s.sof), Sof)
    ensures |cur| <= |Settle(m, cur, s.sof)|
  {
    hide Parse, SingleMarks, Alternating, FreshRegion;
    if s.sof {
      FreshAfterSettle(m, cur);
      if Started(m, cur) {
        FillPads(m, p, cur, m.regionSize - Level(m, |cur|));
      }
    }
  }

  // Placing a block adds exactly its step to the meaning and keeps the bus rules.
  lemma PlaceBlockGood(m: Mfb, lay: Layout, s: Slot)
    requires m.Valid() && GoodLayout(m, lay) && s.Valid(m) && Follows(Meaning(m, lay), s)
    ensures GoodLayout(m, PlaceBlock(m, lay, s))
    ensures Meaning(m, PlaceBlock(m, lay, s)) == Step(Meaning(m, lay), s)
  {
    hide Parse, SingleMarks, Alternating, FreshRegion, Settle;
    var p := ParseWords(m, lay.sent, |lay.sent|);
    SettleGood(m, p, lay.cur, s);
    var c := Settle(m, lay.cur, s.sof);
    ParseNothing(m, p);
    if |c| == m.Slots() {
      SentAppend(m, lay.sent, c);
      FillFirst(m, Parse(m, p, c), s);
    } else {
      FillAppend(m, p, c, s);
    }
  }

  lemma ParseNothing(m: Mfb, p: Progress)
    ensures ValidSlots(m, []) && Parse(m, p, []) == p
  {
  }

  lemma FillFirst(m: Mfb, p: Progress, s: Slot)
    requires m.Valid() && s.Valid(m) && Follows(p, s)
    ensures GoodFill(m, p, [s]) && Parse(m, p, [s]) == Step(p, s)
  {
    assert FreshRegion(m, [], Sof);
    SlotsPositive(m);
    assert [] + [s] == [s];
    assert ValidSlots(m, []) && Parse(m, p, []) == p;
    SingleNothing(m, Sof, m.regions);
    FillAppend(m, p, [], s);
  }

  lemma SlotsPositive(m: Mfb)
    requires m.Valid()
    ensures m.Slots() > 0
  {
    TimesMonotone(1, m.regions, m.regionSize);
    assert m.Base(1) == m.Base(0) + m.regionSize;
  }

  lemma {:induction false} SingleNothing(m: Mfb, mark: Mark, n: nat)
    ensures SingleMarks(m, [], mark, n)
  {
    if n > 0 { SingleNothing(m, mark, n - 1); }
  }

  // ---------------------------------------------------------------- frames

  // The bytes a block adds: the open frame grows by the chunk, or is completed by it.
  lemma ChunkStep(m: Mfb, cs: seq<seq<byte>>, i: nat, p: Progress, bytes: seq<byte>)
    requires i < |cs| && 0 < |cs[i]| <= m.blockSize && (i < |cs| - 1 ==> |cs[i]| == m.blockSize)
    requires if i == 0 then bytes == [] else p.open == Some(bytes)
    ensures BlockSlot(m, cs, i).Valid(m)
    ensures Step(p, BlockSlot(m, cs, i))
         == if i == |cs| - 1 then Progress(None, p.frames + [bytes + cs[i]])
           else Progress(Some(bytes + cs[i]), p.frames)
  {
    var d := Padded(m, cs[i]);
    assert d[..|cs[i]|] == cs[i];
  }

  lemma ConcatStep(cs: seq<seq<byte>>, n: nat)
    requires 0 < n <= |cs|
    ensures Concat(cs[..n]) == Concat(cs[..n - 1]) + cs[n - 1]
    ensures Concat(cs[..0]) == [] && cs[..|cs|] == cs
  {
    assert cs[..n][..n - 1] == cs[..n - 1];
  }

  // The meaning after n blocks of a frame: its bytes so far are open, or it is complete.
  function AfterBlocks(p: Progress, cs: seq<seq<byte>>, n: nat): Progress
    requires n <= |cs|
  {
    if n == 0 then p
    else if n == |cs| then Progress(None, p.frames + [Concat(cs)])
    else Progress(Some(Concat(cs[..n])), p.frames)
  }

  lemma {:induction false} PlaceBlocksGood(m: Mfb, lay: Layout, content: seq<byte>, n: nat)
    requires m.Valid() && GoodLayout(m, lay) && Meaning(m, lay).open.None? && n <= |Chunks(m, content)|
    ensures GoodLayout(m, PlaceBlocks(m, lay, Chunks(m, content), n))
    ensures Meaning(m, PlaceBlocks(m, lay, Chunks(m, content), n))
      == AfterBlocks(Meaning(m, lay), Chunks(m, content), n)
    decreases n
  {
    hide GoodLayout, PlaceBlock, Meaning, Chunks, Concat, BlockSlot;
    var cs := Chunks(m, content);
    if n > 0 {
      PlaceBlocksGood(m, lay, content, n - 1);
      var prev := PlaceBlocks(m, lay, cs, n - 1);
      ConcatStep(cs, n);
      ChunkStep(m, cs, n - 1, Meaning(m, prev), Concat(cs[..n - 1]));
      BlockSlotFlags(m, cs, n - 1);
      PlaceBlockGood(m, prev, BlockSlot(m, cs, n - 1));
    }
  }

  lemma BlockSlotFlags(m: Mfb, cs: seq<seq<byte>>, i: nat)
    requires i < |cs|
    ensures BlockSlot(m, cs, i).sof == (i == 0) && BlockSlot(m, cs, i).eof == (i == |cs| - 1)
  {
  }

  // A placed frame is exactly one more frame; an empty one leaves no trace.
  lemma PlaceFrameGood(m: Mfb, lay: Layout, frame: seq<byte>)
    requires m.Valid() && GoodLayout(m, lay) && Meaning(m, lay).open.None?
    ensures GoodLayout(m, PlaceFrame(m, lay, frame))
    ensures Meaning(m, PlaceFrame(m, lay, frame))
         == if frame == [] then Meaning(m, lay) else Progress(None, Meaning(m, lay).frames + [frame])
  {
    hide GoodLayout, Meaning;
    PlaceBlocksGood(m, lay, frame, |Chunks(m, frame)|);
    ConcatChunks(m, frame);
  }

  // The whole run places exactly the frames that fit, in order.
  lemma {:induction false} PlaceGood(m: Mfb, depth: nat, lay: Layout, packets: seq<seq<byte>>)
    requires m.Valid() && GoodLayout(m, lay) && Meaning(m, lay).open.None?
    ensures GoodLayout(m, Place(m, depth, lay, packets))
    ensures Meaning(m, Place(m, depth, lay, packets))
         == Progress(None, Meaning(m, lay).frames + Placed(m, depth, lay, packets))
    decreases |packets|
  {
    hide GoodLayout, Meaning, HasRoom, PlaceFrame;
    if packets != [] && HasRoom(m, depth, lay, packets[|packets| - 1]) {
      var frame := packets[|packets| - 1];
      PlaceFrameGood(m, lay, frame);
      PlaceGood(m, depth, PlaceFrame(m, lay, frame), packets[..|packets| - 1]);
    }
  }

  // ---------------------------------------------------------------- FIFO use

  lemma PlaceBlockSlots(m: Mfb, lay: Layout, s: Slot)
    requires m.Valid() && |lay.cur| <= m.Slots()
    ensures var r := PlaceBlock(m, lay, s);
      && 0 < |r.cur| <= m.Slots()
      && Times(|r.sent|, m.Slots()) + |r.cur|
         <= Times(|lay.sent|, m.Slots()) + (if s.sof then m.Slots() else |lay.cur|) + 1
  {
    SlotsPositive(m);
    FreshAfterSettle(m, lay.cur);
  }

  lemma {:induction false} PlaceBlocksSlots(m: Mfb, lay: Layout, cs: seq<seq<byte>>, n: nat)
    requires m.Valid() && |lay.cur| <= m.Slots() && 0 < n <= |cs|
    ensures var r := PlaceBlocks(m, lay, cs, n);
      0 < |r.cur| <= m.Slots() && Times(|r.sent|, m.Slots()) + |r.cur| <= Times(|lay.sent|, m.Slots()) + m.Slots() + n
    decreases n
  {
    hide PlaceBlock, BlockSlot;
    BlockSlotFlags(m, cs, n - 1);
    if n > 1 {
      PlaceBlocksSlots(m, lay, cs, n - 1);
    }
    PlaceBlockSlots(m, PlaceBlocks(m, lay, cs, n - 1), BlockSlot(m, cs, n - 1));
  }

  // k words after the first need at least k * slots more blocks.
  lemma WordsNeeded(m: Mfb, k: nat, n: nat)
    requires m.Valid() && n > 0 && Times(k, m.Slots()) + 1 <= m.Slots() + n
    ensures k <= WordsRequired(m, n)
  {
    if k > WordsRequired(m, n) {
      TimesMonotone(1, m.regions, m.regionSize);
      assert m.Base(1) == m.Base(0) + m.regionSize;
      TimesAtLeast(k - 1, m.regionSize, m.Slots());
      TimesMonotone(WordsRequired(m, n), k - 1, m.regionSize);
      assert false;
    }
  }

  lemma {:induction false} TimesAtLeast(n: nat, d: nat, e: nat)
    requires d <= e
    ensures Times(n, d) <= Times(n, e)
  {
    if n > 0 { TimesAtLeast(n - 1, d, e); }
  }

  // A frame that has room leaves no more words sent than the FIFO holds.
  lemma PlaceFrameRoom(m: Mfb, depth: nat, lay: Layout, frame: seq<byte>)
    requires m.Valid() && |lay.cur| <= m.Slots() && HasRoom(m, depth, lay, frame) && |lay.sent| <= depth
    ensures |PlaceFrame(m, lay, frame).cur| <= m.Slots() && |PlaceFrame(m, lay, frame).sent| <= depth
  {
    var cs := Chunks(m, frame);
    if cs != [] {
      PlaceBlocksSlots(m, lay, cs, |cs|);
      var r := PlaceBlocks(m, lay, cs, |cs|);
      if |r.sent| > |lay.sent| {
        var k: nat := |r.sent| - |lay.sent|;
        TimesAdd(|lay.sent|, k, m.Slots());
        WordsNeeded(m, k, |cs|);
      }
    }
  }

  // The run sends at most depth full words, and then one last word.
  lemma {:induction false} PlaceRoom(m: Mfb, depth: nat, lay: Layout, packets: seq<seq<byte>>)
    requires m.Valid() && |lay.cur| <= m.Slots() && |lay.sent| <= depth
    ensures |Place(m, depth, lay, packets).sent| <= depth && |Place(m, depth, lay, packets).cur| <= m.Slots()
    decreases |packets|
  {
    hide PlaceFrame, HasRoom;
    if packets != [] && HasRoom(m, depth, lay, packets[|packets| - 1]) {
      PlaceFrameRoom(m, depth, lay, packets[|packets| - 1]);
      PlaceRoom(m, depth, PlaceFrame(m, lay, packets[|packets| - 1]), packets[..|packets| - 1]);
    }
  }

  // ---------------------------------------------------------------- frames of at least a region

  // The last n slots belong to one unfinished frame that began n slots ago.
  ghost predicate Tailed(cur: seq<Slot>, n: nat) {
    forall i :: 0 <= i < |cur| && |cur| - n <= i ==> !cur[i].eof && (cur[i].sof ==> i == |cur| - n)
  }

  ghost predicate AllUsed(ws: seq<Slot>) {
    forall i :: 0 <= i < |ws| ==> ws[i].used
  }

  // No region of any word, finished or not, holds two ends.
  ghost predicate SingleEnds(m: Mfb, lay: Layout) {
    && (forall k :: 0 <= k < |lay.sent| ==> SingleMarks(m, lay.sent[k], Eof, m.regions))
    && SingleMarks(m, lay.cur, Eof, m.regions)
  }

  // No slot was skipped, no region has two ends, and the region being filled has a start
  // only if it is full.
  ghost predicate Regular(m: Mfb, lay: Layout)
    requires m.Valid()
  {
    && |lay.cur| <= m.Slots() && AllUsed(lay.cur) && SingleEnds(m, lay)
    && (Started(m, lay.cur) ==> Level(m, |lay.cur|) == m.regionSize)
  }

  // Within a frame of which n blocks are placed.
  ghost predicate RegularWithin(m: Mfb, lay: Layout, n: nat) {
    |lay.cur| <= m.Slots() && AllUsed(lay.cur) && SingleEnds(m, lay) && Tailed(lay.cur, n)
  }

  lemma FreshTail(m: Mfb, cur: seq<Slot>, n: nat)
    requires m.Valid() && Tailed(cur, n) && m.regionSize <= n + 1
    ensures FreshRegion(m, cur, Eof)
  {
  }

  // Appending one block of a frame with at least a region's blocks.
  lemma RegularBlock(m: Mfb, lay: Layout, cs: seq<seq<byte>>, n: nat)
    requires m.Valid() && n < |cs| && m.regionSize <= |cs|
    requires if n == 0 then Regular(m, lay) else RegularWithin(m, lay, n)
    ensures var r := PlaceBlock(m, lay, BlockSlot(m, cs, n));
      if n + 1 == |cs| then Regular(m, r) else RegularWithin(m, r, n + 1)
  {
    hide SingleMarks;
    var s := BlockSlot(m, cs, n);
    var c := Settle(m, lay.cur, s.sof);
    assert c == lay.cur;
    SlotsPositive(m);
    if |c| == m.Slots() {
      SingleNothing(m, Eof, m.regions);
      assert [] + [s] == [s];
      SingleAppend(m, [], s, Eof, m.regions);
    } else {
      if s.eof { FreshTail(m, c, n); }
      SingleAppend(m, c, s, Eof, m.regions);
    }
  }

  lemma {:induction false} RegularBlocks(m: Mfb, lay: Layout, cs: seq<seq<byte>>, n: nat)
    requires m.Valid() && Regular(m, lay) && m.regionSize <= |cs| && n <= |cs|
    ensures if n == 0 || n == |cs| then Regular(m, PlaceBlocks(m, lay, cs, n))
      else RegularWithin(m, PlaceBlocks(m, lay, cs, n), n)
    decreases n
  {
    hide Regular, RegularWithin, PlaceBlock, BlockSlot;
    if n > 0 {
      RegularBlocks(m, lay, cs, n - 1);
      RegularBlock(m, PlaceBlocks(m, lay, cs, n - 1), cs, n - 1);
    }
  }

  // Frames with at least as many blocks as a region has slots leave no gap and never end
  // twice in one region.
  lemma {:induction false} LongFramesRegular(m: Mfb, depth: nat, lay: Layout, packets: seq<seq<byte>>)
    requires m.Valid() && Regular(m, lay)
    requires forall i :: 0 <= i < |packets| ==> packets[i] == [] || |Chunks(m, packets[i])| >= m.regionSize
    ensures Regular(m, Place(m, depth, lay, packets))
    decreases |packets|
  {
    hide Regular, HasRoom, PlaceBlocks, Chunks;
    if packets != [] && HasRoom(m, depth, lay, packets[|packets| - 1]) {
      var frame := packets[|packets| - 1];
      if frame == [] {
        NoChunks(m, lay);
      } else {
        RegularBlocks(m, lay, Chunks(m, frame), |Chunks(m, frame)|);
      }
      LongFramesRegular(m, depth, PlaceFrame(m, lay, frame), packets[..|packets| - 1]);
    }
  }

  lemma NoChunks(m: Mfb, lay: Layout)
    requires m.Valid()
    ensures PlaceBlocks(m, lay, Chunks(m, []), |Chunks(m, [])|) == lay
  {
  }
}
