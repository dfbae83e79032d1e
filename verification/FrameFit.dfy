// How the frames of a run fit into regions and words, from their sizes in blocks alone.
module FrameFit {
  import opened Numbers
  import opened Options
  import opened MfbStream
  import opened FrameLayout
  import opened FramePlayer

  // Full words, regions in use in the word being filled and slots in use in the last of them,
  // whether a frame starts in that region, whether a slot of the word was skipped, and whether
  // two frames ever ended in one region.
  datatype Fill = Fill(words: nat, used: nat, level: nat, started: bool, gap: bool, shared: bool)

  const NO_FILL := Fill(0, 0, 0, false, false, false)

  // Slots of its first region that are taken before a frame: it goes on behind the tail of a
  // frame from an earlier region, and else takes a new region.
  function StartAt(m: Mfb, f: Fill): nat {
    if f.started || f.level == m.regionSize then 0 else f.level
  }

  // The rest of a region in which a frame starts is skipped.
  predicate Skips(m: Mfb, f: Fill) {
    f.started && f.level < m.regionSize
  }

  // A frame of n blocks ends in the region in which an earlier frame ends.
  predicate SharesEnd(m: Mfb, f: Fill, n: nat) {
    StartAt(m, f) > 0 && StartAt(m, f) + n <= m.regionSize
  }

  // Regions counted on beyond the word: those of the last word, and the words before.
  function InWord(m: Mfb, t: nat): (u: nat)
    requires m.Valid()
    ensures u <= m.regions && (t > 0 ==> u > 0)
  {
    if t <= m.regions then t else InWord(m, t - m.regions)
  }

  function WordsBefore(m: Mfb, t: nat): nat
    requires m.Valid()
  {
    if t <= m.regions then 0 else 1 + WordsBefore(m, t - m.regions)
  }

  // Regions used, counted on, up to the k-th block of the next frame.
  function RegionsTo(m: Mfb, f: Fill, k: nat): nat
    requires m.Valid() && k > 0
  {
    f.used + (if StartAt(m, f) == 0 then 1 else 0) + WordsRequired(m, StartAt(m, f) + k) - 1
  }

  // After n blocks of a frame that ends with them.
  function FillFrame(m: Mfb, f: Fill, n: nat): Fill
    requires m.Valid() && n > 0
  {
    var t, x := RegionsTo(m, f, n), StartAt(m, f) + n;
    Fill(f.words + WordsBefore(m, t), InWord(m, t), Level(m, x), x <= m.regionSize,
      t <= m.regions && (f.gap || Skips(m, f)), f.shared || SharesEnd(m, f, n))
  }

  // A run over frames of these sizes, taken from the end of the list.
  function FillAll(m: Mfb, depth: nat, f: Fill, sizes: seq<nat>): Fill
    requires m.Valid()
    decreases |sizes|
  {
    if sizes == [] then f
    else
      var n := sizes[|sizes| - 1];
      if f.words + WordsRequired(m, n) > depth then f
      else FillAll(m, depth, if n == 0 then f else FillFrame(m, f, n), sizes[..|sizes| - 1])
  }

  // Blocks of each packet.
  function Sizes(m: Mfb, packets: seq<seq<byte>>): (ns: seq<nat>)
    requires m.Valid()
    ensures |ns| == |packets| && forall i :: 0 <= i < |ns| ==> ns[i] == CeilDiv(|packets[i]|, m.blockSize)
  {
    seq(|packets|, i requires 0 <= i < |packets| => CeilDiv(|packets[i]|, m.blockSize))
  }

  lemma {:induction false} ChunkCount(m: Mfb, content: seq<byte>)
    requires m.Valid()
    ensures |Chunks(m, content)| == CeilDiv(|content|, m.blockSize)
    decreases |content|
  {
    if |content| > m.blockSize { ChunkCount(m, content[m.blockSize..]); }
  }

  // ---------------------------------------------------------------- regions and levels

  // Slot x - 1 is in region WordsRequired(x) - 1, which Level(x) slots fill.
  lemma {:induction false} RegionStep(m: Mfb, x: nat)
    requires m.Valid() && x > 0
    ensures WordsRequired(m, x) > 0 && x == m.Base(WordsRequired(m, x) - 1) + Level(m, x)
    ensures Level(m, x + 1) == if Level(m, x) == m.regionSize then 1 else Level(m, x) + 1
    ensures WordsRequired(m, x + 1) == WordsRequired(m, x) + if Level(m, x) == m.regionSize then 1 else 0
    ensures x <= m.regionSize ==> Level(m, x) == x && WordsRequired(m, x) == 1
    decreases x
  {
    if x > m.regionSize { RegionStep(m, x - m.regionSize); }
  }

  lemma {:induction false} WordStep(m: Mfb, t: nat)
    requires m.Valid() && t > 0
    ensures InWord(m, t + 1) == if InWord(m, t) == m.regions then 1 else InWord(m, t) + 1
    ensures WordsBefore(m, t + 1) == WordsBefore(m, t) + if InWord(m, t) == m.regions then 1 else 0
    ensures t <= m.regions ==> InWord(m, t) == t
    decreases t
  {
    if t > m.regions { WordStep(m, t - m.regions); }
  }

  // ---------------------------------------------------------------- what a layout shows

  ghost predicate Shows(m: Mfb, lay: Layout, f: Fill)
    requires m.Valid()
  {
    && f.words == |lay.sent| && f.used <= m.regions && f.level <= m.regionSize
    && (f.used == 0 ==> lay.cur == [] && f.level == 0)
    && (f.used > 0 ==> f.level > 0 && |lay.cur| == m.Base(f.used - 1) + f.level)
    && f.started == Started(m, lay.cur)
    && f.gap == !AllUsed(lay.cur)
  }

  lemma ShowsLevel(m: Mfb, lay: Layout, f: Fill)
    requires m.Valid() && Shows(m, lay, f)
    ensures Level(m, |lay.cur|) == f.level && |lay.cur| <= m.Slots()
    ensures |lay.cur| == m.Slots() <==> f.used == m.regions && f.level == m.regionSize
    ensures f.used > 0 && f.level == m.regionSize ==> |lay.cur| == m.Base(f.used)
  {
    hide Level, Started, AllUsed;
    if f.used > 0 {
      LevelIs(m, |lay.cur|, f.used - 1);
      TimesMonotone(f.used, m.regions, m.regionSize);
      if f.used < m.regions { TimesMonotone(f.used + 1, m.regions, m.regionSize); }
    } else {
      NoLevel(m);
      SlotsPositive(m);
    }
  }

  lemma NoLevel(m: Mfb)
    requires m.Valid()
    ensures Level(m, 0) == 0
  {
  }

  // A slot in the region being filled, or the first one of the next region.
  lemma ShowsAppend(m: Mfb, lay: Layout, f: Fill, s: Slot)
    requires m.Valid() && Shows(m, lay, f) && |lay.cur| < m.Slots() && s.used
    ensures Shows(m, Layout(lay.sent, lay.cur + [s]),
      if f.used == 0 || f.level == m.regionSize then Fill(f.words, f.used + 1, 1, s.sof, f.gap, f.shared)
      else f.(level := f.level + 1, started := f.started || s.sof))
  {
    hide Level;
    var c := lay.cur + [s];
    var anew := f.used == 0 || f.level == m.regionSize;
    var u := if anew then f.used + 1 else f.used;
    var l := if anew then 1 else f.level + 1;
    ShowsLevel(m, lay, f);
    LevelIs(m, |c|, u - 1);
    AllUsedAppend(lay.cur, s);
    StartedTail(m, lay.cur, f.level);
    StartedTail(m, c, l);
    TailAppend(lay.cur, s, l);
  }

  ghost predicate TailSof(cur: seq<Slot>, l: nat) {
    exists i :: 0 <= i && |cur| - l <= i < |cur| && cur[i].sof
  }

  ghost predicate TailEof(cur: seq<Slot>, l: nat) {
    exists i :: 0 <= i && |cur| - l <= i < |cur| && cur[i].eof
  }

  lemma StartedTail(m: Mfb, cur: seq<Slot>, l: nat)
    requires m.Valid() && Level(m, |cur|) == l
    ensures Started(m, cur) <==> TailSof(cur, l)
  {
    hide Level;
  }

  lemma TailAppend(cur: seq<Slot>, s: Slot, l: nat)
    requires 0 < l <= |cur| + 1
    ensures TailSof(cur + [s], l) <==> s.sof || TailSof(cur, l - 1)
    ensures TailEof(cur + [s], l) <==> s.eof || TailEof(cur, l - 1)
  {
    var c := cur + [s];
    assert c[|cur|] == s;
    if TailSof(cur, l - 1) {
      var i :| 0 <= i && |cur| - (l - 1) <= i < |cur| && cur[i].sof;
      assert c[i].sof;
    }
    if TailEof(cur, l - 1) {
      var i :| 0 <= i && |cur| - (l - 1) <= i < |cur| && cur[i].eof;
      assert c[i].eof;
    }
  }

  lemma AllUsedAppend(cur: seq<Slot>, s: Slot)
    ensures AllUsed(cur + [s]) <==> AllUsed(cur) && s.used
  {
    assert (cur + [s])[|cur|] == s;
    if AllUsed(cur + [s]) {
      forall i | 0 <= i < |cur|
        ensures cur[i].used
      {
        assert (cur + [s])[i] == cur[i];
      }
    }
  }

  // A new word holds its first block only.
  lemma ShowsSent(m: Mfb, sent: seq<seq<Slot>>, s: Slot, f: Fill)
    requires m.Valid() && s.used
    ensures Shows(m, Layout(sent, [s]), Fill(|sent|, 1, 1, s.sof, false, f.shared))
  {
    assert Level(m, 1) == 1 && m.Base(0) == 0;
    assert [s][0] == s;
  }

  // Settling fills the region up with skipped slots.
  lemma ShowsSettled(m: Mfb, lay: Layout, f: Fill)
    requires m.Valid() && Shows(m, lay, f) && f.started
    ensures |Settle(m, lay.cur, true)| == m.Base(f.used) && f.used > 0
    ensures AllUsed(Settle(m, lay.cur, true)) <==> !f.gap && !Skips(m, f)
  {
    hide Level, Started;
    ShowsLevel(m, lay, f);
    ShowsParts(m, lay, f);
    var n := m.regionSize - f.level;
    var c := lay.cur + Pads(m, n);
    assert Settle(m, lay.cur, true) == c;
    AllUsedPads(m, lay.cur, n);
  }

  lemma {:induction false} AllUsedPads(m: Mfb, cur: seq<Slot>, n: nat)
    ensures AllUsed(cur + Pads(m, n)) <==> AllUsed(cur) && n == 0
  {
    hide AllUsed;
    if n == 0 {
      assert cur + Pads(m, 0) == cur;
    } else {
      AllUsedAppend(cur + Pads(m, n - 1), PadSlot(m));
      assert cur + Pads(m, n - 1) + [PadSlot(m)] == cur + Pads(m, n);
    }
  }

  // ---------------------------------------------------------------- blocks of a frame

  // The first block of a frame, as if it were its only one.
  lemma ShowsFirst(m: Mfb, lay: Layout, f: Fill, s: Slot)
    requires m.Valid() && Shows(m, lay, f) && s.used && s.sof
    ensures Shows(m, PlaceBlock(m, lay, s), FillFrame(m, f, 1))
  {
    hide Shows, Level, Started, Settle, AllUsed, SharesEnd;
    ShowsParts(m, lay, f);
    FirstFill(m, f);
    ShowsLevel(m, lay, f);
    var g := FillFrame(m, f, 1);
    if f.started {
      ShowsSettled(m, lay, f);
      ShowsNewRegion(m, lay, f, s);
    } else {
      NotSettled(m, lay.cur, true);
      if |lay.cur| == m.Slots() {
        ShowsSent(m, lay.sent + [lay.cur], s, g);
      } else {
        ShowsAppend(m, lay, f, s);
        ShowsShared(m, PlaceBlock(m, lay, s), g.(shared := f.shared), g);
      }
    }
  }

  lemma ShowsParts(m: Mfb, lay: Layout, f: Fill)
    requires m.Valid() && Shows(m, lay, f)
    ensures f.words == |lay.sent| && f.used <= m.regions && f.level <= m.regionSize && f.started == Started(m, lay.cur)
    ensures (f.used == 0 ==> lay.cur == [] && f.level == 0 && !f.gap && !f.started) && (f.used > 0 ==> f.level > 0)
    ensures f.gap == !AllUsed(lay.cur)
  {
    hide Level;
  }

  // The flag of shared ends says nothing about a single layout.
  lemma ShowsShared(m: Mfb, lay: Layout, f: Fill, g: Fill)
    requires m.Valid() && Shows(m, lay, f) && g == f.(shared := g.shared)
    ensures Shows(m, lay, g)
  {
    hide Level, Started, AllUsed;
  }

  lemma NotSettled(m: Mfb, cur: seq<Slot>, first: bool)
    requires m.Valid() && (!first || !Started(m, cur))
    ensures Settle(m, cur, first) == cur
  {
    hide Started;
  }

  // What FillFrame says about a first block.
  lemma FirstFill(m: Mfb, f: Fill)
    requires m.Valid() && f.used <= m.regions && f.level <= m.regionSize
    requires (f.used == 0 ==> f.level == 0 && !f.started && !f.gap) && (f.used > 0 ==> f.level > 0)
    ensures var g := FillFrame(m, f, 1);
      if StartAt(m, f) > 0 then g == Fill(f.words, f.used, f.level + 1, true, f.gap, g.shared)
      else if f.used == m.regions then g == Fill(f.words + 1, 1, 1, true, false, g.shared)
      else g == Fill(f.words, f.used + 1, 1, true, f.gap || Skips(m, f), g.shared)
  {
    hide SharesEnd;
    RegionStep(m, StartAt(m, f) + 1);
    if f.used > 0 { WordStep(m, f.used); }
    WordStep(m, 1);
  }

  lemma ShowsNewRegion(m: Mfb, lay: Layout, f: Fill, s: Slot)
    requires m.Valid() && Shows(m, lay, f) && f.started && s.used && s.sof && f.used > 0
    requires |Settle(m, lay.cur, true)| == m.Base(f.used)
    requires AllUsed(Settle(m, lay.cur, true)) <==> !f.gap && !Skips(m, f)
    ensures Shows(m, PlaceBlock(m, lay, s), FillFrame(m, f, 1))
  {
    hide Settle, Level, SharesEnd;
    var c := Settle(m, lay.cur, true);
    FirstFill(m, f);
    if f.used == m.regions {
      ShowsSent(m, lay.sent + [c], s, f);
    } else {
      TimesMonotone(f.used + 1, m.regions, m.regionSize);
      LevelIs(m, |c| + 1, f.used);
      AllUsedAppend(c, s);
      assert (c + [s])[|c|].sof;
    }
  }

  // The next block of a frame.
  lemma ShowsNext(m: Mfb, lay: Layout, f: Fill, s: Slot, k: nat)
    requires m.Valid() && k > 0 && Shows(m, lay, FillFrame(m, f, k)) && s.used && !s.sof
    requires f.level > 0 ==> f.used > 0
    ensures Shows(m, PlaceBlock(m, lay, s), FillFrame(m, f, k + 1))
  {
    hide Shows, Level, Started, Settle, AllUsed, SharesEnd;
    var g := FillFrame(m, f, k);
    ShowsParts(m, lay, g);
    ShowsLevel(m, lay, g);
    NotSettled(m, lay.cur, false);
    NextFill(m, f, k);
    if |lay.cur| == m.Slots() {
      ShowsSent(m, lay.sent + [lay.cur], s, FillFrame(m, f, k + 1));
    } else {
      ShowsAppend(m, lay, g, s);
      ShowsShared(m, PlaceBlock(m, lay, s), FillFrame(m, f, k + 1).(shared := g.shared), FillFrame(m, f, k + 1));
    }
  }

  lemma NextFill(m: Mfb, f: Fill, k: nat)
    requires m.Valid() && k > 0 && (f.level > 0 ==> f.used > 0)
    ensures var g, h := FillFrame(m, f, k), FillFrame(m, f, k + 1);
      if g.level == m.regionSize && g.used == m.regions then h == Fill(g.words + 1, 1, 1, false, false, h.shared)
      else if g.level == m.regionSize then h == Fill(g.words, g.used + 1, 1, false, g.gap, h.shared)
      else h == Fill(g.words, g.used, g.level + 1, g.started, g.gap, h.shared)
    ensures FillFrame(m, f, k).used > 0 && FillFrame(m, f, k).level > 0
  {
    hide SharesEnd, Level, WordsRequired, InWord, WordsBefore;
    RegionStep(m, StartAt(m, f) + k);
    WordStep(m, RegionsTo(m, f, k));
  }

  lemma {:induction false} ShowsBlocks(m: Mfb, lay: Layout, f: Fill, cs: seq<seq<byte>>, k: nat)
    requires m.Valid() && Shows(m, lay, f) && 0 < k <= |cs|
    ensures Shows(m, PlaceBlocks(m, lay, cs, k), FillFrame(m, f, k))
    decreases k
  {
    hide Shows, FillFrame, PlaceBlock, Padded;
    ShowsParts(m, lay, f);
    if k == 1 {
      ShowsFirst(m, lay, f, BlockSlot(m, cs, 0));
      assert PlaceBlocks(m, lay, cs, 0) == lay;
    } else {
      ShowsBlocks(m, lay, f, cs, k - 1);
      ShowsNext(m, PlaceBlocks(m, lay, cs, k - 1), f, BlockSlot(m, cs, k - 1), k - 1);
    }
  }

  // A frame without bytes changes nothing.
  lemma ShowsFrame(m: Mfb, lay: Layout, f: Fill, frame: seq<byte>) returns (g: Fill)
    requires m.Valid() && Shows(m, lay, f)
    ensures var n := CeilDiv(|frame|, m.blockSize); g == (if n == 0 then f else FillFrame(m, f, n))
    ensures Shows(m, PlaceFrame(m, lay, frame), g)
  {
    hide Shows, FillFrame, PlaceBlocks;
    var cs := Chunks(m, frame);
    ChunkCount(m, frame);
    if cs == [] {
      NoBlocks(m, lay, cs);
      g := f;
    } else {
      ShowsBlocks(m, lay, f, cs, |cs|);
      g := FillFrame(m, f, |cs|);
    }
  }

  // Layout and sizes stay in step over a whole run.
  lemma {:induction false} ShowsAll(m: Mfb, depth: nat, lay: Layout, f: Fill, packets: seq<seq<byte>>)
    requires m.Valid() && Shows(m, lay, f)
    ensures Shows(m, Place(m, depth, lay, packets), FillAll(m, depth, f, Sizes(m, packets)))
    decreases |packets|
  {
    hide Shows, FillFrame, PlaceFrame, WordsRequired;
    if packets != [] {
      var frame := packets[|packets| - 1];
      ChunkCount(m, frame);
      ShowsWords(m, lay, f);
      assert Sizes(m, packets)[..|packets| - 1] == Sizes(m, packets[..|packets| - 1]);
      if HasRoom(m, depth, lay, frame) {
        var g := ShowsFrame(m, lay, f, frame);
        ShowsAll(m, depth, PlaceFrame(m, lay, frame), g, packets[..|packets| - 1]);
      }
    }
  }

  lemma ShowsWords(m: Mfb, lay: Layout, f: Fill)
    requires m.Valid() && Shows(m, lay, f)
    ensures f.words == |lay.sent|
  {
  }

  lemma NoBlocks(m: Mfb, lay: Layout, cs: seq<seq<byte>>)
    requires m.Valid() && cs == []
    ensures PlaceBlocks(m, lay, cs, 0) == lay
  {
  }

  lemma ShowsNothing(m: Mfb)
    requires m.Valid()
    ensures Shows(m, EMPTY, NO_FILL)
  {
  }

  // ---------------------------------------------------------------- two ends in one region

  // Another slot keeps single ends exactly if it ends no frame in a region that has an end.
  lemma {:induction false} SingleAppendIff(m: Mfb, ws: seq<Slot>, s: Slot)
    requires m.Valid() && |ws| < m.Slots()
    ensures SingleMarks(m, ws + [s], Eof, m.regions) <==>
      SingleMarks(m, ws, Eof, m.regions) && (s.eof ==> FreshRegion(m, ws, Eof))
  {
    hide SingleMarks, FreshRegion;
    if SingleMarks(m, ws, Eof, m.regions) && (s.eof ==> FreshRegion(m, ws, Eof)) {
      SingleAppend(m, ws, s, Eof, m.regions);
    } else if SingleMarks(m, ws + [s], Eof, m.regions) {
      SingleShorter(m, ws, s, m.regions);
      SingleFresh(m, ws, s);
    }
  }

  lemma {:induction false} SingleShorter(m: Mfb, ws: seq<Slot>, s: Slot, n: nat)
    requires SingleMarks(m, ws + [s], Eof, n)
    ensures SingleMarks(m, ws, Eof, n)
  {
    hide SingleMark;
    if n > 0 {
      SingleShorter(m, ws, s, n - 1);
      SingleShorterRegion(m, ws, s, n - 1);
    }
  }

  lemma SingleShorterRegion(m: Mfb, ws: seq<Slot>, s: Slot, r: nat)
    requires SingleMark(m, ws + [s], Eof, r)
    ensures SingleMark(m, ws, Eof, r)
  {
    var lo := m.Base(r);
    forall i | lo <= i < lo + m.regionSize && i < |ws| && ws[i].Has(Eof)
      ensures RegionMark(m, ws, Eof, r) == Some(i)
    {
      assert (ws + [s])[i].Has(Eof);
      assert RegionMark(m, ws + [s], Eof, r) == Some(i);
      if s.eof && lo <= |ws| < lo + m.regionSize { assert (ws + [s])[|ws|].Has(Eof); }
      LastMarkSame(ws, s, Eof, lo, lo + m.regionSize);
    }
  }

  lemma SingleFresh(m: Mfb, ws: seq<Slot>, s: Slot)
    requires m.Valid() && |ws| < m.Slots() && SingleMarks(m, ws + [s], Eof, m.regions)
    ensures s.eof ==> FreshRegion(m, ws, Eof)
  {
    if s.eof {
      forall q: nat, i: nat | m.Base(q) <= i < |ws| < m.Base(q) + m.regionSize
        ensures !ws[i].Has(Eof)
      {
        if q >= m.regions { TimesMonotone(m.regions, q, m.regionSize); }
        SingleMarkAt(m, ws + [s], Eof, m.regions, q);
        assert (ws + [s])[i] == ws[i] && (ws + [s])[|ws|].Has(Eof);
      }
    }
  }

  // The region a slot falls into has an end exactly if one lies in its filled part.
  lemma FreshIs(m: Mfb, lay: Layout, f: Fill)
    requires m.Valid() && Shows(m, lay, f)
    ensures FreshRegion(m, lay.cur, Eof) <==> f.level == m.regionSize || !TailEof(lay.cur, f.level)
  {
    hide Level, Started, AllUsed;
    if f.used == 0 {
      FreshBoundary(m, lay.cur, 0);
    } else if f.level == m.regionSize {
      FreshBoundary(m, lay.cur, f.used);
    } else {
      FreshWithin(m, lay.cur, f.used - 1, f.level);
    }
  }

  lemma FreshBoundary(m: Mfb, ws: seq<Slot>, u: nat)
    requires |ws| == m.Base(u)
    ensures FreshRegion(m, ws, Eof)
  {
    forall q: nat
      ensures !(m.Base(q) < m.Base(u) < m.Base(q) + m.regionSize)
    {
      if q < u { TimesMonotone(q + 1, u, m.regionSize); } else { TimesMonotone(u, q, m.regionSize); }
    }
  }

  lemma FreshWithin(m: Mfb, ws: seq<Slot>, r: nat, l: nat)
    requires |ws| == m.Base(r) + l && 0 < l < m.regionSize
    ensures FreshRegion(m, ws, Eof) <==> !TailEof(ws, l)
  {
    if FreshRegion(m, ws, Eof) {
      forall i | 0 <= i && |ws| - l <= i < |ws|
        ensures !ws[i].eof
      {
        assert m.Base(r) <= i < |ws| < m.Base(r) + m.regionSize ==> !ws[i].Has(Eof);
      }
    } else {
      var q: nat, i: nat :| m.Base(q) <= i < |ws| < m.Base(q) + m.regionSize && ws[i].Has(Eof);
      if q < r { TimesMonotone(q + 1, r, m.regionSize); }
      if r < q { TimesMonotone(r + 1, q, m.regionSize); }
    }
  }

  lemma {:induction false} SinglePads(m: Mfb, ws: seq<Slot>, n: nat)
    requires m.Valid() && |ws| + n <= m.Slots()
    ensures SingleMarks(m, ws + Pads(m, n), Eof, m.regions) <==> SingleMarks(m, ws, Eof, m.regions)
  {
    hide SingleMarks, FreshRegion;
    if n == 0 {
      assert ws + Pads(m, 0) == ws;
    } else {
      SinglePads(m, ws, n - 1);
      SingleAppendIff(m, ws + Pads(m, n - 1), PadSlot(m));
      assert ws + Pads(m, n - 1) + [PadSlot(m)] == ws + Pads(m, n);
    }
  }

  // A block keeps single ends exactly if it ends no frame in a region that has an end.
  lemma EndsPlace(m: Mfb, lay: Layout, s: Slot)
    requires m.Valid() && |lay.cur| <= m.Slots()
    ensures var c := Settle(m, lay.cur, s.sof);
      SingleEnds(m, PlaceBlock(m, lay, s)) <==>
        SingleEnds(m, lay) && (|c| < m.Slots() && s.eof ==> FreshRegion(m, c, Eof))
  {
    hide SingleMarks, FreshRegion, Level, Started;
    var c := Settle(m, lay.cur, s.sof);
    FreshAfterSettle(m, lay.cur);
    SinglePads(m, lay.cur, |c| - |lay.cur|);
    assert c == lay.cur || c == lay.cur + Pads(m, |c| - |lay.cur|);
    assert lay.cur + Pads(m, 0) == lay.cur;
    if |c| == m.Slots() {
      OneSingle(m, s);
      SentEnds(m, lay.sent, c, [s], lay.cur);
    } else {
      SingleAppendIff(m, c, s);
    }
  }

  lemma SentEnds(m: Mfb, sent: seq<seq<Slot>>, c: seq<Slot>, d: seq<Slot>, cur: seq<Slot>)
    requires SingleMarks(m, c, Eof, m.regions) <==> SingleMarks(m, cur, Eof, m.regions)
    requires SingleMarks(m, d, Eof, m.regions)
    ensures SingleEnds(m, Layout(sent + [c], d)) <==> SingleEnds(m, Layout(sent, cur))
  {
    hide SingleMarks;
    var t := sent + [c];
    assert t[|sent|] == c && forall k :: 0 <= k < |sent| ==> t[k] == sent[k];
  }

  lemma OneSingle(m: Mfb, s: Slot)
    requires m.Valid()
    ensures SingleMarks(m, [s], Eof, m.regions)
  {
    SingleNothing(m, Eof, m.regions);
    SlotsPositive(m);
    FreshBoundary(m, [], 0);
    SingleAppendIff(m, [], s);
    assert [] + [s] == [s];
  }

  // The last slot in use ends a frame.
  ghost predicate EndsFrame(lay: Layout) {
    lay.cur != [] ==> lay.cur[|lay.cur| - 1].eof
  }

  lemma EndsFirst(m: Mfb, lay: Layout, f: Fill, s: Slot)
    requires m.Valid() && Shows(m, lay, f) && EndsFrame(lay) && s.used && s.sof
    ensures SingleEnds(m, PlaceBlock(m, lay, s)) <==> SingleEnds(m, lay) && !(s.eof && SharesEnd(m, f, 1))
    ensures !s.eof ==> (TailEof(PlaceBlock(m, lay, s).cur, FillFrame(m, f, 1).level) <==> SharesEnd(m, f, 1))
  {
    hide SingleEnds, Level, Started, AllUsed, FreshRegion, TailEof;
    ShowsLevel(m, lay, f);
    ShowsParts(m, lay, f);
    FirstFill(m, f);
    EndsPlace(m, lay, s);
    FreshIs(m, lay, f);
    TailLast(lay.cur, f.level);
    if f.started {
      ShowsSettled(m, lay, f);
      FreshBoundary(m, Settle(m, lay.cur, true), f.used);
    } else {
      NotSettled(m, lay.cur, true);
    }
    if !s.eof { TailOf(m, lay, f, s); }
  }

  lemma TailLast(cur: seq<Slot>, l: nat)
    requires cur != [] ==> cur[|cur| - 1].eof
    ensures l > 0 && cur != [] ==> TailEof(cur, l)
    ensures TailEof(cur, 0) == false
  {
  }

  // The filled part of the region a first block goes into.
  lemma TailOf(m: Mfb, lay: Layout, f: Fill, s: Slot)
    requires m.Valid() && Shows(m, lay, f) && EndsFrame(lay) && s.used && s.sof && !s.eof
    ensures TailEof(PlaceBlock(m, lay, s).cur, FillFrame(m, f, 1).level) <==> SharesEnd(m, f, 1)
  {
    hide Level, Started, AllUsed, TailEof, Settle;
    ShowsParts(m, lay, f);
    FirstFill(m, f);
    var c := Settle(m, lay.cur, true);
    if StartAt(m, f) > 0 {
      NotSettled(m, lay.cur, true);
      ShowsLevel(m, lay, f);
      TailAppend(c, s, f.level + 1);
      TailLast(c, f.level);
    } else {
      TailAppend(c, s, 1);
      TailAppend([], s, 1);
      TailNone(c);
      TailNone([]);
      assert [] + [s] == [s];
    }
  }

  lemma TailNone(cur: seq<Slot>)
    ensures !TailEof(cur, 0)
  {
  }

  lemma EndsNext(m: Mfb, lay: Layout, f: Fill, s: Slot, k: nat)
    requires m.Valid() && k > 0 && Shows(m, lay, FillFrame(m, f, k)) && s.used && !s.sof && (f.level > 0 ==> f.used > 0)
    requires TailEof(lay.cur, FillFrame(m, f, k).level) <==> SharesEnd(m, f, k)
    ensures SingleEnds(m, PlaceBlock(m, lay, s)) <==> SingleEnds(m, lay) && !(s.eof && SharesEnd(m, f, k + 1))
    ensures !s.eof ==> (TailEof(PlaceBlock(m, lay, s).cur, FillFrame(m, f, k + 1).level) <==> SharesEnd(m, f, k + 1))
  {
    hide SingleEnds, Level, Started, AllUsed, FreshRegion, TailEof, FillFrame, Settle;
    var g := FillFrame(m, f, k);
    NextFill(m, f, k);
    LevelOf(m, f, k);
    ShowsLevel(m, lay, g);
    NotSettled(m, lay.cur, false);
    EndsPlace(m, lay, s);
    FreshIs(m, lay, g);
    if !s.eof {
      TailAppend(lay.cur, s, 1);
      TailAppend([], s, 1);
      TailNone(lay.cur);
      TailNone([]);
      assert [] + [s] == [s];
      if g.level < m.regionSize { TailAppend(lay.cur, s, g.level + 1); }
    }
  }

  lemma LevelOf(m: Mfb, f: Fill, k: nat)
    requires m.Valid() && k > 0
    ensures FillFrame(m, f, k).level == Level(m, StartAt(m, f) + k) > 0
    ensures StartAt(m, f) + k <= m.regionSize ==> FillFrame(m, f, k).level == StartAt(m, f) + k
  {
    hide SharesEnd;
  }

  lemma {:induction false} EndsBlocks(m: Mfb, lay: Layout, f: Fill, cs: seq<seq<byte>>, k: nat)
    requires m.Valid() && Shows(m, lay, f) && EndsFrame(lay) && 0 < k <= |cs|
    ensures var next := PlaceBlocks(m, lay, cs, k);
      && (SingleEnds(m, next) <==> SingleEnds(m, lay) && !(k == |cs| && SharesEnd(m, f, k)))
      && (k < |cs| ==> (TailEof(next.cur, FillFrame(m, f, k).level) <==> SharesEnd(m, f, k)))
      && (k == |cs| ==> EndsFrame(next))
    decreases k
  {
    hide Shows, FillFrame, PlaceBlock, Padded, SingleEnds, SharesEnd, TailEof;
    ShowsParts(m, lay, f);
    var s := BlockSlot(m, cs, k - 1);
    if k == 1 {
      assert PlaceBlocks(m, lay, cs, 0) == lay;
      EndsFirst(m, lay, f, s);
      PlacedLast(m, lay, s);
    } else {
      var before := PlaceBlocks(m, lay, cs, k - 1);
      EndsBlocks(m, lay, f, cs, k - 1);
      ShowsBlocks(m, lay, f, cs, k - 1);
      EndsNext(m, before, f, s, k - 1);
      PlacedLast(m, before, s);
    }
  }

  lemma PlacedLast(m: Mfb, lay: Layout, s: Slot)
    requires m.Valid()
    ensures PlaceBlock(m, lay, s).cur != [] && PlaceBlock(m, lay, s).cur[|PlaceBlock(m, lay, s).cur| - 1] == s
  {
    hide Settle;
  }

  // Over a whole run, two ends share a region exactly if the sizes say so.
  lemma {:induction false} EndsAll(m: Mfb, depth: nat, lay: Layout, f: Fill, packets: seq<seq<byte>>)
    requires m.Valid() && Shows(m, lay, f) && EndsFrame(lay) && (SingleEnds(m, lay) <==> !f.shared)
    ensures SingleEnds(m, Place(m, depth, lay, packets)) <==> !FillAll(m, depth, f, Sizes(m, packets)).shared
    decreases |packets|
  {
    hide Shows, FillFrame, PlaceBlocks, WordsRequired, Chunks, SingleEnds, EndsFrame, SharesEnd;
    if packets != [] {
      var frame := packets[|packets| - 1];
      var cs := Chunks(m, frame);
      ChunkCount(m, frame);
      ShowsWords(m, lay, f);
      assert Sizes(m, packets)[..|packets| - 1] == Sizes(m, packets[..|packets| - 1]);
      if HasRoom(m, depth, lay, frame) {
        if cs != [] {
          ShowsBlocks(m, lay, f, cs, |cs|);
          EndsBlocks(m, lay, f, cs, |cs|);
          SharedIs(m, f, |cs|);
        } else {
          NoBlocks(m, lay, cs);
        }
        var g := if cs == [] then f else FillFrame(m, f, |cs|);
        EndsAll(m, depth, PlaceFrame(m, lay, frame), g, packets[..|packets| - 1]);
      }
    }
  }

  lemma SharedIs(m: Mfb, f: Fill, n: nat)
    requires m.Valid() && n > 0
    ensures FillFrame(m, f, n).shared <==> f.shared || SharesEnd(m, f, n)
  {
  }
}
