// What skipping slots in the unpadded last word does to the frames read back.
module SkippedSlots {
  import opened Numbers
  import opened MfbStream
  import opened FrameRecorder
  import opened RecorderStream
  import opened RecorderExactness
  import opened FrameLayout
  import opened MfbRoundTrip
  import opened LastWordGap

  // ---------------------------------------------------------------- how blocks lie in a word

  // Skipped slots carry no mark and come before a start; a block that does not start a frame
  // follows a block of its frame; after a frame's last byte there are zeros.
  ghost predicate Tidy(cur: seq<Slot>) {
    && (forall i :: 0 <= i < |cur| && !cur[i].used ==> !cur[i].sof && !cur[i].eof)
    && (forall i :: 0 <= i < |cur| && !cur[i].used ==> i + 1 < |cur| && (cur[i + 1].used ==> cur[i + 1].sof))
    && (forall i :: 1 <= i < |cur| && cur[i].used && !cur[i].sof ==> cur[i - 1].used && !cur[i - 1].eof)
    && (forall i :: 0 <= i < |cur| && cur[i].eof ==>
      forall k :: cur[i].last < k < |cur[i].data| ==> cur[i].data[k] == 0)
  }

  lemma TidyBlock(m: Mfb, lay: Layout, cs: seq<seq<byte>>, n: nat)
    requires m.Valid() && n < |cs| && Tidy(lay.cur)
    requires forall i :: 0 <= i < |cs| ==> 0 < |cs[i]| <= m.blockSize
    requires n > 0 ==> lay.cur != [] && lay.cur[|lay.cur| - 1] == BlockSlot(m, cs, n - 1)
    ensures var next := PlaceBlock(m, lay, BlockSlot(m, cs, n));
      Tidy(next.cur) && next.cur != [] && next.cur[|next.cur| - 1] == BlockSlot(m, cs, n)
  {
    hide Level, Started, Padded;
    PaddedZeros(m, cs[n]);
    var c := Settle(m, lay.cur, n == 0);
    assert n == 0 || c == lay.cur;
  }

  lemma PaddedZeros(m: Mfb, chunk: seq<byte>)
    ensures forall k :: |chunk| <= k < |Padded(m, chunk)| ==> Padded(m, chunk)[k] == 0
  {
  }

  lemma {:induction false} TidyBlocks(m: Mfb, lay: Layout, cs: seq<seq<byte>>, n: nat)
    requires m.Valid() && n <= |cs| && Tidy(lay.cur)
    requires forall i :: 0 <= i < |cs| ==> 0 < |cs[i]| <= m.blockSize
    ensures var next := PlaceBlocks(m, lay, cs, n);
      Tidy(next.cur) && (n > 0 ==> next.cur != [] && next.cur[|next.cur| - 1] == BlockSlot(m, cs, n - 1))
  {
    hide Tidy, PlaceBlock, BlockSlot;
    if n > 0 {
      TidyBlocks(m, lay, cs, n - 1);
      TidyBlock(m, PlaceBlocks(m, lay, cs, n - 1), cs, n - 1);
    }
  }

  lemma {:induction false} PlacedTidy(m: Mfb, depth: nat, lay: Layout, packets: seq<seq<byte>>)
    requires m.Valid() && Tidy(lay.cur)
    ensures Tidy(Place(m, depth, lay, packets).cur)
    decreases |packets|
  {
    hide Tidy, HasRoom, PlaceBlocks;
    if packets != [] && HasRoom(m, depth, lay, packets[|packets| - 1]) {
      var cs := Chunks(m, packets[|packets| - 1]);
      TidyBlocks(m, lay, cs, |cs|);
      PlacedTidy(m, depth, PlaceFrame(m, lay, packets[|packets| - 1]), packets[..|packets| - 1]);
    }
  }

  // ---------------------------------------------------------------- which block is read where

  function UsedCount(ws: seq<Slot>): (n: nat)
    ensures n <= |ws| && (n == |ws| <==> AllUsed(ws))
  {
    if ws == [] then 0
    else
      var n := |ws| - 1;
      assert AllUsed(ws) <==> AllUsed(ws[..n]) && ws[n].used by { assert ws == ws[..n] + [ws[n]]; }
      UsedCount(ws[..n]) + if ws[n].used then 1 else 0
  }

  lemma {:induction false} UsedBytesLength(m: Mfb, ws: seq<Slot>)
    requires ValidSlots(m, ws)
    ensures |UsedBytes(ws)| == m.Bytes(UsedCount(ws))
  {
    if ws != [] { UsedBytesLength(m, ws[..|ws| - 1]); }
  }

  // The j-th block in use, and where it lies among the bytes in use.
  lemma {:induction false} UsedBlock(m: Mfb, ws: seq<Slot>, j: nat) returns (n: nat)
    requires ValidSlots(m, ws) && j < UsedCount(ws)
    ensures n < |ws| && ws[n].used && UsedCount(ws[..n]) == j
    ensures m.Bytes(j) + m.blockSize <= |UsedBytes(ws)|
    ensures UsedBytes(ws)[m.Bytes(j)..m.Bytes(j) + m.blockSize] == ws[n].data
  {
    var k := |ws| - 1;
    UsedBytesLength(m, ws);
    UsedBytesLength(m, ws[..k]);
    if j == UsedCount(ws[..k]) {
      n := k;
    } else {
      n := UsedBlock(m, ws[..k], j);
      assert ws[..k][..n] == ws[..n];
    }
  }

  // Slot i of the last word reads as a block that lies there or later, or as zeros; it is its
  // own block if no slot before it was skipped.
  lemma ReadSlot(m: Mfb, cur: seq<Slot>, i: nat) returns (n: nat)
    requires ValidSlots(m, cur) && |cur| <= m.Slots() && i < |cur|
    ensures i <= n <= |cur| && (n < |cur| ==> cur[n].used)
    ensures ReadWord(m, cur)[i].data == if n < |cur| then cur[n].data else Repeat(0, m.blockSize)
    ensures cur[i].used ==> (n == i <==> AllUsed(cur[..i]))
  {
    hide UsedBytes, Pads, Whole, Cut, UsedCount, AllUsed;
    CutAt(m, Whole(m, cur), ReadBytes(m, cur), i);
    UsedBytesLength(m, cur);
    if i < UsedCount(cur) {
      n := UsedBlock(m, cur, i);
      BlockAtOrAfter(cur, i, n);
    } else {
      n := |cur|;
      TimesMonotone(UsedCount(cur), i, m.blockSize);
      CountTo(cur, i, |cur|);
    }
  }

  lemma BlockAtOrAfter(cur: seq<Slot>, i: nat, n: nat)
    requires i < |cur| && n < |cur| && cur[n].used && UsedCount(cur[..n]) == i
    ensures i <= n && (cur[i].used ==> (n == i <==> AllUsed(cur[..i])))
  {
    hide UsedCount, AllUsed;
    if cur[i].used && i < n { CountTo(cur, i, n); }
  }

  lemma CountTo(ws: seq<Slot>, i: nat, n: nat)
    requires i < n <= |ws|
    ensures ws[i].used ==> UsedCount(ws[..i]) < UsedCount(ws[..n]) && UsedCount(ws[..n]) <= UsedCount(ws)
    ensures ws[..|ws|] == ws
  {
    assert ws[..i + 1][..i] == ws[..i] && ws[..n][..i + 1] == ws[..i + 1];
    CountMore(ws[..n], i + 1);
    CountMore(ws, n);
  }

  lemma {:induction false} CountMore(ws: seq<Slot>, i: nat)
    requires i <= |ws|
    ensures UsedCount(ws[..i]) <= UsedCount(ws)
  {
    if i < |ws| {
      assert ws[..|ws| - 1][..i] == ws[..i];
      CountMore(ws[..|ws| - 1], i);
    } else {
      assert ws[..i] == ws;
    }
  }

  // ---------------------------------------------------------------- the condition

  // Every block placed after a skipped slot of the last word is all zeros.
  predicate ZeroAfterGap(m: Mfb, cur: seq<Slot>) {
    forall i :: 0 <= i < |cur| && cur[i].used && (exists j :: 0 <= j < i && !cur[j].used) ==>
      cur[i].data == Repeat(0, m.blockSize)
  }

  lemma GapBefore(cur: seq<Slot>, i: nat)
    requires i <= |cur|
    ensures AllUsed(cur[..i]) <==> !exists j :: 0 <= j < i && !cur[j].used
  {
    if j :| 0 <= j < i && !cur[j].used { assert !cur[..i][j].used; }
  }

  // Then every block in use is read as it is.
  lemma ReadsSame(m: Mfb, cur: seq<Slot>, i: nat)
    requires ValidSlots(m, cur) && |cur| <= m.Slots() && ZeroAfterGap(m, cur) && i < |cur| && cur[i].used
    ensures ReadWord(m, cur)[i].data == cur[i].data
  {
    hide ReadWord;
    var n := ReadSlot(m, cur, i);
    GapBefore(cur, i);
    if n != i && n < |cur| {
      var j :| 0 <= j < i && !cur[j].used;
    }
  }

  // Otherwise the last block that is not zero is read as zeros.
  lemma {:induction false} LastNonzero(m: Mfb, cur: seq<Slot>, z: nat) returns (i: nat)
    requires z <= |cur| && !ZeroAfterGap(m, cur)
    requires forall i :: z <= i < |cur| && cur[i].used && (exists j :: 0 <= j < i && !cur[j].used) ==>
      cur[i].data == Repeat(0, m.blockSize)
    ensures i < z && cur[i].used && cur[i].data != Repeat(0, m.blockSize) && (exists j :: 0 <= j < i && !cur[j].used)
    ensures forall k :: i < k < |cur| && cur[k].used ==> cur[k].data == Repeat(0, m.blockSize)
    decreases z
  {
    if z > 0 && !(cur[z - 1].used && (exists j :: 0 <= j < z - 1 && !cur[j].used)
      && cur[z - 1].data != Repeat(0, m.blockSize)) {
      i := LastNonzero(m, cur, z - 1);
    } else {
      i := z - 1;
    }
  }

  lemma NonzeroByte(m: Mfb, data: seq<byte>) returns (k: nat)
    requires |data| == m.blockSize && data != Repeat(0, m.blockSize)
    ensures k < |data| && data[k] != 0
  {
    ElementsDiffer(data, Repeat(0, m.blockSize));
    k :| k < |data| && data[k] != Repeat<byte>(0, m.blockSize)[k];
  }

  lemma ElementsDiffer(a: seq<byte>, b: seq<byte>)
    ensures a == b || |a| != |b| || exists k :: 0 <= k < |a| && a[k] != b[k]
  {
  }

  lemma ReadsZero(m: Mfb, cur: seq<Slot>) returns (z: nat, k: nat)
    requires ValidSlots(m, cur) && |cur| <= m.Slots() && !ZeroAfterGap(m, cur)
    ensures z < |cur| && cur[z].used && k < m.blockSize && cur[z].data[k] != 0 && ReadWord(m, cur)[z].data[k] == 0
  {
    hide ReadWord;
    z := LastNonzero(m, cur, |cur|);
    k := NonzeroByte(m, cur[z].data);
    var n := ReadSlot(m, cur, z);
    GapBefore(cur, z);
  }

  // ---------------------------------------------------------------- frames that stay the same

  // Where no frame is open the data of a slot without a start does not matter.
  lemma {:induction false} ParseSame(m: Mfb, p: Progress, ws: seq<Slot>, vs: seq<Slot>)
    requires ValidSlots(m, ws) && ValidSlots(m, vs) && SameMarks(ws, vs)
    requires forall i :: 0 <= i < |ws| ==> ws[i].data == vs[i].data || (!ws[i].sof && ParseTo(m, p, ws, i).open.None?)
    ensures Parse(m, p, ws) == Parse(m, p, vs)
  {
    if ws != [] {
      hide Step, Parse;
      var n := |ws| - 1;
      forall i | 0 <= i < n
        ensures ParseTo(m, p, ws[..n], i) == ParseTo(m, p, ws, i)
      {
        assert ws[..n][..i] == ws[..i];
      }
      ParseSame(m, p, ws[..n], vs[..n]);
      ParseNext(m, p, ws, n);
      ParseNext(m, p, vs, n);
      ParseEnds(m, p, ws);
      ParseEnds(m, p, vs);
      StepSame(ParseTo(m, p, ws, n), ws[n], vs[n]);
    }
  }

  lemma StepSame(p: Progress, s: Slot, t: Slot)
    requires s.sof == t.sof && s.eof == t.eof && s.last == t.last && |s.data| == |t.data|
    requires (s.eof ==> s.last < |s.data|)
    requires s.data == t.data || (!s.sof && p.open.None?)
    ensures Step(p, s) == Step(p, t)
  {
  }

  // No frame is open at a skipped slot.
  lemma {:induction false} SkippedClosed(m: Mfb, p: Progress, cur: seq<Slot>, i: nat)
    requires ValidSlots(m, cur) && Alternating(m, p, cur) && Tidy(cur) && i < |cur| && !cur[i].used
    ensures ParseTo(m, p, cur, i).open.None?
    decreases |cur| - i
  {
    hide Parse;
    ParseNext(m, p, cur, i);
    if !cur[i + 1].used { SkippedClosed(m, p, cur, i + 1); }
  }

  // A frame is open at every block that does not start one.
  lemma {:induction false} UsedOpen(m: Mfb, p: Progress, cur: seq<Slot>, i: nat)
    requires ValidSlots(m, cur) && Tidy(cur) && i < |cur| && cur[i].used && !cur[i].sof && (p.open.Some? || cur[0].sof)
    ensures ParseTo(m, p, cur, i).open.Some?
  {
    hide Parse;
    if i == 0 {
      ParseEnds(m, p, cur);
    } else {
      if !cur[i - 1].sof { UsedOpen(m, p, cur, i - 1); }
      ParseNext(m, p, cur, i - 1);
    }
  }

  // ---------------------------------------------------------------- frames that differ

  // The two readings differ in byte x of frame f, finished or open.
  ghost predicate DiffersAt(p: Progress, q: Progress, f: nat, x: nat) {
    || (f < |p.frames| && f < |q.frames| && x < |p.frames[f]| && x < |q.frames[f]| && p.frames[f][x] != q.frames[f][x])
    || (f == |p.frames| == |q.frames| && p.open.Some? && q.open.Some? && x < |p.open.value| && x < |q.open.value|
        && p.open.value[x] != q.open.value[x])
  }

  lemma DiffersStep(p: Progress, q: Progress, s: Slot, t: Slot, f: nat, x: nat)
    requires DiffersAt(p, q, f, x) && SameLengths(p, q) && (s.eof ==> s.last < |s.data|) && (s.sof ==> p.open.None?)
    requires s.sof == t.sof && s.eof == t.eof && s.last == t.last && |s.data| == |t.data|
    ensures DiffersAt(Step(p, s), Step(q, t), f, x)
  {
  }

  // A difference in a slot that belongs to a frame, at or before the frame's last byte.
  lemma SlotDiffers(p: Progress, q: Progress, s: Slot, t: Slot, k: nat) returns (f: nat, x: nat)
    requires SameLengths(p, q) && (s.eof ==> s.last < |s.data| && k <= s.last) && (s.sof || p.open.Some?)
    requires s.sof == t.sof && s.eof == t.eof && s.last == t.last && k < |s.data| == |t.data| && s.data[k] != t.data[k]
    ensures DiffersAt(Step(p, s), Step(q, t), f, x)
  {
    var a := if s.sof then [] else p.open.value;
    var b := if s.sof then [] else q.open.value;
    f, x := |p.frames|, |a| + k;
    var n := if s.eof then s.last + 1 else |s.data|;
    assert (a + s.data[..n])[x] == s.data[k] && (b + t.data[..n])[x] == t.data[k];
    assert s.data[..|s.data|] == s.data && t.data[..|t.data|] == t.data;
  }

  lemma {:induction false} DiffersOn(m: Mfb, p: Progress, ws: seq<Slot>, vs: seq<Slot>, i: nat, j: nat, f: nat, x: nat)
    requires ValidSlots(m, ws) && ValidSlots(m, vs) && SameMarks(ws, vs) && Alternating(m, p, ws) && i <= j <= |ws|
    requires DiffersAt(ParseTo(m, p, ws, i), ParseTo(m, p, vs, i), f, x)
    ensures DiffersAt(ParseTo(m, p, ws, j), ParseTo(m, p, vs, j), f, x)
    decreases j
  {
    hide Parse, DiffersAt, SameLengths;
    if i < j {
      DiffersOn(m, p, ws, vs, i, j - 1, f, x);
      SameParse(m, p, ws[..j - 1], vs[..j - 1]);
      ParseNext(m, p, ws, j - 1);
      ParseNext(m, p, vs, j - 1);
      DiffersStep(ParseTo(m, p, ws, j - 1), ParseTo(m, p, vs, j - 1), ws[j - 1], vs[j - 1], f, x);
    }
  }

  lemma FramesDiffer(m: Mfb, p: Progress, ws: seq<Slot>, vs: seq<Slot>, z: nat, k: nat)
    requires ValidSlots(m, ws) && ValidSlots(m, vs) && SameMarks(ws, vs) && Alternating(m, p, ws)
    requires z < |ws| && (ws[z].sof || ParseTo(m, p, ws, z).open.Some?) && (ws[z].eof ==> k <= ws[z].last)
    requires k < m.blockSize && ws[z].data[k] != vs[z].data[k] && Parse(m, p, ws).open.None?
    ensures Parse(m, p, ws).frames != Parse(m, p, vs).frames
  {
    hide Parse, SameLengths, Alternating;
    SameParse(m, p, ws[..z], vs[..z]);
    ParseNext(m, p, ws, z);
    ParseNext(m, p, vs, z);
    var f, x := SlotDiffers(ParseTo(m, p, ws, z), ParseTo(m, p, vs, z), ws[z], vs[z], k);
    DiffersOn(m, p, ws, vs, z + 1, |ws|, f, x);
    ParseEnds(m, p, ws);
    ParseEnds(m, p, vs);
  }

  // ---------------------------------------------------------------- the last word, exactly

  // What is read of the last word means the same frames if and only if every block after a
  // skipped slot is zeros.
  lemma ReadMeaning(m: Mfb, p: Progress, cur: seq<Slot>)
    requires m.Valid() && ValidSlots(m, cur) && 0 < |cur| <= m.Slots() && Alternating(m, p, cur) && Tidy(cur)
    requires (p.open.Some? || cur[0].sof) && Parse(m, p, cur).open.None?
    ensures Parse(m, p, ReadWord(m, cur)).frames == Parse(m, p, cur).frames <==> ZeroAfterGap(m, cur)
  {
    hide Parse, ReadWord, Tidy, Whole, ZeroAfterGap;
    var ws, vs := Whole(m, cur), ReadWord(m, cur);
    WholeEnd(m, p, cur);
    ParseWhole(m, p, cur);
    if ZeroAfterGap(m, cur) {
      forall i | 0 <= i < |ws|
        ensures ws[i].data == vs[i].data || (!ws[i].sof && ParseTo(m, p, ws, i).open.None?)
      {
        SlotStays(m, p, cur, i);
      }
      ParseSame(m, p, ws, vs);
    } else {
      var z, k := ReadsZero(m, cur);
      assert ws[..|cur|][z] == ws[z] && ws[..z] == cur[..z] by { assert ws[..|cur|][..z] == ws[..z]; }
      if !cur[z].sof { UsedOpen(m, p, cur, z); }
      VisibleByte(cur, z, k);
      FramesDiffer(m, p, ws, vs, z, k);
    }
  }

  lemma VisibleByte(cur: seq<Slot>, z: nat, k: nat)
    requires Tidy(cur) && z < |cur| && k < |cur[z].data| && cur[z].data[k] != 0
    ensures cur[z].eof ==> k <= cur[z].last
  {
  }

  // Padding adds nothing.
  lemma ParseWhole(m: Mfb, p: Progress, cur: seq<Slot>)
    requires ValidSlots(m, cur) && |cur| <= m.Slots() && Parse(m, p, cur).open.None?
    ensures ValidSlots(m, Whole(m, cur)) && Parse(m, p, Whole(m, cur)) == Parse(m, p, cur)
    ensures forall i :: |cur| <= i <= m.Slots() ==> ParseTo(m, p, Whole(m, cur), i) == Parse(m, p, cur)
  {
    hide Parse, Whole;
    var ws := Whole(m, cur);
    forall i | |cur| <= i <= |ws|
      ensures ParseTo(m, p, ws, i) == Parse(m, p, cur)
    {
      StillClosed(m, p, ws, |cur|, i);
    }
    ParseEnds(m, p, ws);
  }

  lemma SlotStays(m: Mfb, p: Progress, cur: seq<Slot>, i: nat)
    requires m.Valid() && ValidSlots(m, cur) && |cur| <= m.Slots() && Alternating(m, p, cur) && Tidy(cur)
    requires ZeroAfterGap(m, cur) && Parse(m, p, cur).open.None? && i < m.Slots()
    ensures var ws, vs := Whole(m, cur), ReadWord(m, cur);
      ws[i].data == vs[i].data || (!ws[i].sof && ParseTo(m, p, ws, i).open.None?)
  {
    hide Parse, ReadWord, Whole, ZeroAfterGap;
    var ws := Whole(m, cur);
    ParseWhole(m, p, cur);
    if i < |cur| {
      assert ws[..|cur|][i] == ws[i] && ws[..i] == cur[..i] by { assert ws[..|cur|][..i] == ws[..i]; }
      if cur[i].used {
        ReadsSame(m, cur, i);
      } else {
        SkippedClosed(m, p, cur, i);
        assert !cur[i].sof;
      }
    }
  }

  // ---------------------------------------------------------------- a finished layout, exactly

  // What is written for a finished layout is a conforming stream without idle words. It
  // carries as many frames of the same lengths, and the same frames if nothing but zeros was
  // placed after a skipped slot.
  lemma ReadStream(m: Mfb, lay: Layout) returns (wss: seq<seq<Slot>>)
    requires m.Valid() && GoodLayout(m, lay) && SingleEnds(m, lay) && Meaning(m, lay).open.None? && lay.cur != []
    requires Tidy(lay.cur)
    ensures Conforming(m, wss) && IdleOnlyLast(m, wss, |wss|)
    ensures Emitted(m, lay) == Encoded(m, wss) && |Emitted(m, lay)| == |wss|
    ensures SameLengths(Meaning(m, lay), ParseWords(m, wss, |wss|))
    ensures ParseWords(m, wss, |wss|).frames == Meaning(m, lay).frames <==> ZeroAfterGap(m, lay.cur)
  {
    hide *;
    LayoutParts(m, lay);
    var ws, vs := Whole(m, lay.cur), ReadWord(m, lay.cur);
    var p := ParseWords(m, lay.sent, |lay.sent|);
    wss := lay.sent + [vs];
    LayoutConforms(m, lay);
    WholeIs(m, lay);
    ReadConforms(m, lay.sent, ws, vs);
    ReadFrames(m, lay.sent, vs);
    NeverIdle(m, wss);
    MeaningIs(m, lay);
    WholeEnd(m, p, lay.cur);
    ParseWhole(m, p, lay.cur);
    ReadMeaning(m, p, lay.cur);
    SameParse(m, p, ws, vs);
    LastWordImage(m, lay.cur);
    EmittedRead(m, lay);
  }

  // Reading back a finished layout with at most one end per region gives exactly its frames,
  // if and only if no frame but the last is one byte and every block that was placed after a
  // skipped slot of the last word is zeros.
  lemma LayoutRoundTrip(m: Mfb, lay: Layout)
    requires m.Valid() && GoodLayout(m, lay) && SingleEnds(m, lay) && Meaning(m, lay).open.None? && lay.cur != []
    requires Tidy(lay.cur)
    ensures Recorded(m, lay).Success? && Recorded(m, lay).value.packets == Meaning(m, lay).frames
      <==> LongButLast(Meaning(m, lay).frames) && ZeroAfterGap(m, lay.cur)
  {
    hide *;
    LayoutParts(m, lay);
    var wss := ReadStream(m, lay);
    ConformingValid(m, wss);
    RecordedIs(m, lay);
    RecorderExact(m, wss);
    OneByteFrames(m, wss);
    LengthsLong(Meaning(m, lay), ParseWords(m, wss, |wss|));
    if !OneByteOnlyLast(wss, |wss|) {
      BreakDiverges(m, wss);
      DivergedDiffers(ParseWords(m, wss, |wss|), Meaning(m, lay), Run(m, Encoded(m, wss), |wss|));
    }
  }

  lemma MeaningIs(m: Mfb, lay: Layout)
    requires GoodLayout(m, lay)
    ensures Meaning(m, lay) == Parse(m, ParseWords(m, lay.sent, |lay.sent|), lay.cur)
    ensures lay.cur == [] || ParseWords(m, lay.sent, |lay.sent|).open.Some? || lay.cur[0].sof
  {
    hide Parse, ParseWords;
  }

  lemma LengthsLong(p: Progress, q: Progress)
    requires SameLengths(p, q)
    ensures LongButLast(p.frames) <==> LongButLast(q.frames)
    ensures SameLengths(q, p)
  {
  }
}
