// The last word is sent unpadded: what the recorder reads when a slot in it was skipped.
module LastWordGap {
  import opened Numbers
  import opened MfbStream
  import opened FrameRecorder
  import opened CapturedWords
  import opened RecorderStream
  import opened RecorderExactness
  import opened FrameLayout
  import opened MfbRoundTrip

  // ---------------------------------------------------------------- the same marks, other data

  ghost predicate SameMarks(ws: seq<Slot>, vs: seq<Slot>) {
    && |ws| == |vs|
    && forall i :: 0 <= i < |ws| ==> ws[i].sof == vs[i].sof && ws[i].eof == vs[i].eof && ws[i].last == vs[i].last
  }

  ghost predicate SameLengths(p: Progress, q: Progress) {
    && (p.open.Some? <==> q.open.Some?) && (p.open.Some? ==> |p.open.value| == |q.open.value|)
    && |p.frames| == |q.frames| && forall i :: 0 <= i < |p.frames| ==> |p.frames[i]| == |q.frames[i]|
  }

  lemma {:induction false} SameParse(m: Mfb, p: Progress, ws: seq<Slot>, vs: seq<Slot>)
    requires ValidSlots(m, ws) && ValidSlots(m, vs) && SameMarks(ws, vs)
    ensures SameLengths(Parse(m, p, ws), Parse(m, p, vs))
  {
    if ws != [] {
      var n := |ws| - 1;
      SameParse(m, p, ws[..n], vs[..n]);
      SameStep(Parse(m, p, ws[..n]), Parse(m, p, vs[..n]), ws[n], vs[n]);
    }
  }

  lemma SameStep(p: Progress, q: Progress, s: Slot, t: Slot)
    requires SameLengths(p, q) && s.sof == t.sof && s.eof == t.eof && s.last == t.last && |s.data| == |t.data|
    requires s.eof ==> s.last < |s.data|
    ensures SameLengths(Step(p, s), Step(q, t))
  {
  }

  lemma {:induction false} SameLastMark(ws: seq<Slot>, vs: seq<Slot>, mark: Mark, lo: nat, hi: nat)
    requires SameMarks(ws, vs) && lo <= hi
    ensures LastMark(ws, mark, lo, hi) == LastMark(vs, mark, lo, hi)
    decreases hi
  {
    if lo < hi { SameLastMark(ws, vs, mark, lo, hi - 1); }
  }

  lemma SameRegion(m: Mfb, ws: seq<Slot>, vs: seq<Slot>, mark: Mark, r: nat)
    requires SameMarks(ws, vs)
    ensures RegionMark(m, ws, mark, r) == RegionMark(m, vs, mark, r)
    ensures RegionPos(m, ws, mark, r) == RegionPos(m, vs, mark, r)
    ensures SingleMark(m, ws, mark, r) ==> SingleMark(m, vs, mark, r)
  {
    SameLastMark(ws, vs, mark, m.Base(r), m.Base(r) + m.regionSize);
  }

  lemma SameRegisters(m: Mfb, ws: seq<Slot>, vs: seq<Slot>)
    requires SameMarks(ws, vs)
    ensures PosReg(m, ws, Sof) == PosReg(m, vs, Sof) && PosReg(m, ws, Eof) == PosReg(m, vs, Eof)
    ensures VldReg(m, ws, 0, 0) == VldReg(m, vs, 0, 0)
  {
    forall mark: Mark
      ensures Positions(m, ws, mark) == Positions(m, vs, mark) && Flags(m, ws, mark, 0) == Flags(m, vs, mark, 0)
    {
      forall r | 0 <= r < m.regions
        ensures RegionMark(m, ws, mark, r) == RegionMark(m, vs, mark, r)
        ensures RegionPos(m, ws, mark, r) == RegionPos(m, vs, mark, r)
      {
        SameRegion(m, ws, vs, mark, r);
      }
    }
  }

  lemma {:induction false} SameSingle(m: Mfb, ws: seq<Slot>, vs: seq<Slot>, mark: Mark, n: nat)
    requires SameMarks(ws, vs) && SingleMarks(m, ws, mark, n)
    ensures SingleMarks(m, vs, mark, n)
  {
    hide SingleMark;
    if n > 0 {
      SameSingle(m, ws, vs, mark, n - 1);
      SameRegion(m, ws, vs, mark, n - 1);
    }
  }

  lemma SameAlternating(m: Mfb, p: Progress, ws: seq<Slot>, vs: seq<Slot>)
    requires ValidSlots(m, ws) && ValidSlots(m, vs) && SameMarks(ws, vs) && Alternating(m, p, ws)
    ensures Alternating(m, p, vs)
  {
    hide Parse, SameLengths;
    forall i | 0 <= i < |vs|
      ensures Parse(m, p, vs[..i]).open.Some? <==> Parse(m, p, ws[..i]).open.Some?
    {
      SameParse(m, p, ws[..i], vs[..i]);
      LengthsOpen(Parse(m, p, ws[..i]), Parse(m, p, vs[..i]));
    }
  }

  lemma LengthsOpen(p: Progress, q: Progress)
    requires SameLengths(p, q)
    ensures p.open.Some? <==> q.open.Some?
  {
  }

  // ---------------------------------------------------------------- cutting bytes into slots

  // The slots of ws with their data cut from the given bytes.
  function Cut(m: Mfb, ws: seq<Slot>, bytes: seq<byte>): (vs: seq<Slot>)
    requires ValidSlots(m, ws) && |bytes| == m.Bytes(|ws|)
    ensures SameMarks(ws, vs) && ValidSlots(m, vs)
  {
    if ws == [] then []
    else
      var n := |ws| - 1;
      Cut(m, ws[..n], bytes[..m.Bytes(n)]) + [ws[n].(data := bytes[m.Bytes(n)..])]
  }

  lemma {:induction false} CutFlat(m: Mfb, ws: seq<Slot>, bytes: seq<byte>)
    requires ValidSlots(m, ws) && |bytes| == m.Bytes(|ws|)
    ensures Flat(Cut(m, ws, bytes)) == bytes
  {
    if ws != [] {
      var n := |ws| - 1;
      CutFlat(m, ws[..n], bytes[..m.Bytes(n)]);
      assert Cut(m, ws, bytes)[..n] == Cut(m, ws[..n], bytes[..m.Bytes(n)]);
    }
  }

  lemma {:induction false} CutAt(m: Mfb, ws: seq<Slot>, bytes: seq<byte>, i: nat)
    requires ValidSlots(m, ws) && |bytes| == m.Bytes(|ws|) && i < |ws|
    ensures m.Bytes(i) + m.blockSize <= |bytes|
    ensures Cut(m, ws, bytes)[i].data == bytes[m.Bytes(i)..m.Bytes(i) + m.blockSize]
  {
    var n := |ws| - 1;
    if i < n {
      CutAt(m, ws[..n], bytes[..m.Bytes(n)], i);
    }
  }

  // ---------------------------------------------------------------- the word that is read

  lemma {:induction false} UsedLength(m: Mfb, ws: seq<Slot>)
    requires ValidSlots(m, ws)
    ensures |UsedBytes(ws)| <= m.Bytes(|ws|)
  {
    if ws != [] { UsedLength(m, ws[..|ws| - 1]); }
  }

  // The bytes the last word's registers hold, zeros above.
  function ReadBytes(m: Mfb, cur: seq<Slot>): (bytes: seq<byte>)
    requires ValidSlots(m, cur) && |cur| <= m.Slots()
    ensures |bytes| == m.Bytes(m.Slots())
  {
    UsedLength(m, cur);
    TimesMonotone(|cur|, m.Slots(), m.blockSize);
    UsedBytes(cur) + Repeat(0, m.Bytes(m.Slots()) - |UsedBytes(cur)|)
  }

  function Whole(m: Mfb, cur: seq<Slot>): (ws: seq<Slot>)
    requires |cur| <= m.Slots()
    ensures |ws| == m.Slots() && ws[..|cur|] == cur && (ValidSlots(m, cur) ==> ValidSlots(m, ws))
    ensures forall i :: |cur| <= i < |ws| ==> !ws[i].sof && !ws[i].eof
  {
    cur + Pads(m, m.Slots() - |cur|)
  }

  // The slots as the recorder reads them.
  function ReadWord(m: Mfb, cur: seq<Slot>): (vs: seq<Slot>)
    requires ValidSlots(m, cur) && |cur| <= m.Slots()
    ensures SameMarks(Whole(m, cur), vs) && ValidSlots(m, vs)
  {
    Cut(m, Whole(m, cur), ReadBytes(m, cur))
  }

  lemma {:induction false} PadRegisters(m: Mfb, ws: seq<Slot>, n: nat)
    ensures PosReg(m, ws + Pads(m, n), Sof) == PosReg(m, ws, Sof)
    ensures PosReg(m, ws + Pads(m, n), Eof) == PosReg(m, ws, Eof)
    ensures VldReg(m, ws + Pads(m, n), 0, 0) == VldReg(m, ws, 0, 0)
  {
    hide PosReg, VldReg;
    if n == 0 {
      assert ws + Pads(m, 0) == ws;
    } else {
      PadRegisters(m, ws, n - 1);
      var t := ws + Pads(m, n - 1);
      assert t + [PadSlot(m)] == ws + Pads(m, n);
      forall mark: Mark, r: nat
        ensures RegionMark(m, t + [PadSlot(m)], mark, r) == RegionMark(m, t, mark, r)
      {
        PadSame(m, t, mark, r);
      }
      RegistersSame(m, t, t + [PadSlot(m)]);
    }
  }

  // The unpadded last word is the image of the slots that are read.
  lemma LastWordImage(m: Mfb, cur: seq<Slot>)
    requires ValidSlots(m, cur) && |cur| <= m.Slots()
    ensures Encode(m, cur, UsedBytes(cur)) == Encode(m, ReadWord(m, cur), Flat(ReadWord(m, cur)))
  {
    hide *;
    var ws, vs := Whole(m, cur), ReadWord(m, cur);
    CutFlat(m, ws, ReadBytes(m, cur));
    ReadIs(m, cur);
    ReadPack(m, cur);
    SameRegisters(m, ws, vs);
    PadRegisters(m, cur, m.Slots() - |cur|);
    EncodeSame(m, cur, UsedBytes(cur), vs, ReadBytes(m, cur));
  }

  lemma ReadIs(m: Mfb, cur: seq<Slot>)
    requires ValidSlots(m, cur) && |cur| <= m.Slots()
    ensures ReadWord(m, cur) == Cut(m, Whole(m, cur), ReadBytes(m, cur))
    ensures Whole(m, cur) == cur + Pads(m, m.Slots() - |cur|)
  {
    hide Cut;
  }

  lemma ReadPack(m: Mfb, cur: seq<Slot>)
    requires ValidSlots(m, cur) && |cur| <= m.Slots()
    ensures Pack(8, ReadBytes(m, cur)) == Pack(8, UsedBytes(cur))
  {
    hide Pack, UsedBytes;
    ZerosAbove(UsedBytes(cur), |ReadBytes(m, cur)| - |UsedBytes(cur)|);
  }

  lemma EncodeSame(m: Mfb, ws: seq<Slot>, x: seq<byte>, vs: seq<Slot>, y: seq<byte>)
    requires Pack(8, x) == Pack(8, y) && VldReg(m, ws, 0, 0) == VldReg(m, vs, 0, 0)
    requires PosReg(m, ws, Sof) == PosReg(m, vs, Sof) && PosReg(m, ws, Eof) == PosReg(m, vs, Eof)
    ensures Encode(m, ws, x) == Encode(m, vs, y)
  {
    hide Pack, Unpack, PosReg, VldReg;
  }

  // ---------------------------------------------------------------- the stream that is read

  // The stream with its last word as read is as well-formed as the one that was meant.
  lemma ReadConforms(m: Mfb, sent: seq<seq<Slot>>, ws: seq<Slot>, vs: seq<Slot>)
    requires AllValid(m, sent) && ValidSlots(m, ws) && ValidSlots(m, vs) && SameMarks(ws, vs)
    requires Conforming(m, sent + [ws]) && NoIdleWord(m, sent + [ws])
    ensures Conforming(m, sent + [vs]) && NoIdleWord(m, sent + [vs])
  {
    hide Parse, ParseWords, SingleMarks, Alternating;
    var n, a, b := |sent|, sent + [ws], sent + [vs];
    forall k | 0 <= k <= n
      ensures ParseWords(m, b, k) == ParseWords(m, sent, k) == ParseWords(m, a, k)
    {
      ParseWordsPrefix(m, sent, ws, k);
      ParseWordsPrefix(m, sent, vs, k);
    }
    assert a[n] == ws && b[n] == vs;
    assert WordSlots(m, ws) && Alternating(m, ParseWords(m, sent, n), ws);
    SameSingle(m, ws, vs, Sof, m.regions);
    SameSingle(m, ws, vs, Eof, m.regions);
    SameAlternating(m, ParseWords(m, sent, n), ws, vs);
    assert forall k :: 0 <= k < n ==> a[k] == sent[k] == b[k];
    SameNextSof(ws, vs);
    forall k | 0 <= k <= n
      ensures !IdleAt(m, b, k)
    {
      assert !IdleAt(m, a, k);
    }
  }

  lemma SameNextSof(ws: seq<Slot>, vs: seq<Slot>)
    requires SameMarks(ws, vs)
    ensures NextMark(ws, Sof, 0).Some? ==> NextMark(vs, Sof, 0).Some?
  {
    if NextMark(ws, Sof, 0).Some? {
      assert vs[NextMark(ws, Sof, 0).value].Has(Sof);
    }
  }

  lemma LayoutParts(m: Mfb, lay: Layout)
    requires GoodLayout(m, lay)
    ensures m.Valid() && AllValid(m, lay.sent) && ValidSlots(m, lay.cur) && |lay.cur| <= m.Slots()
    ensures Alternating(m, ParseWords(m, lay.sent, |lay.sent|), lay.cur)
  {
  }

  lemma WholeIs(m: Mfb, lay: Layout)
    requires |lay.cur| <= m.Slots() && ValidSlots(m, lay.cur)
    ensures BusWords(m, lay) == lay.sent + [Whole(m, lay.cur)] && ValidSlots(m, Whole(m, lay.cur))
  {
  }

  lemma ReadFrames(m: Mfb, sent: seq<seq<Slot>>, ws: seq<Slot>)
    requires m.Valid() && AllValid(m, sent) && ValidSlots(m, ws)
    ensures AllValid(m, sent + [ws]) && |sent + [ws]| == |sent| + 1
    ensures ParseWords(m, sent + [ws], |sent| + 1) == Parse(m, ParseWords(m, sent, |sent|), ws)
  {
    hide Parse, ParseWords;
    ParseWordsPrefix(m, sent, ws, |sent|);
    ParseWordsStep(m, sent + [ws], |sent|);
    assert (sent + [ws])[|sent|] == ws;
  }

  lemma WholeEnd(m: Mfb, p: Progress, cur: seq<Slot>)
    requires ValidSlots(m, cur) && 0 < |cur| <= m.Slots() && Alternating(m, p, cur)
    ensures ValidSlots(m, Whole(m, cur)) && Whole(m, cur)[|cur| - 1] == cur[|cur| - 1]
    ensures NoneFrom(Whole(m, cur), Eof, |cur|) && Alternating(m, p, Whole(m, cur))
  {
    hide Parse, Whole;
    var ws := Whole(m, cur);
    assert ws[..|cur|][|cur| - 1] == ws[|cur| - 1];
    forall i | 0 <= i < |cur|
      ensures ws[i] == cur[i] && Parse(m, p, ws[..i]) == Parse(m, p, cur[..i])
    {
      assert ws[..|cur|][i] == ws[i] && ws[..|cur|][..i] == ws[..i];
    }
  }

  lemma EmittedRead(m: Mfb, lay: Layout)
    requires ValidSlots(m, lay.cur) && |lay.cur| <= m.Slots()
    requires Encode(m, lay.cur, UsedBytes(lay.cur)) == Encode(m, ReadWord(m, lay.cur), Flat(ReadWord(m, lay.cur)))
    ensures Emitted(m, lay) == Encoded(m, lay.sent + [ReadWord(m, lay.cur)])
    ensures |Emitted(m, lay)| == |lay.sent| + 1
  {
    hide Encode, ReadWord, Flat, UsedBytes;
  }

  lemma DivergedDiffers(p: Progress, q: Progress, r: Result<State>)
    requires Diverged(p, r) && SameLengths(p, q)
    ensures r.Failure? || r.value.packets != q.frames
  {
  }
}
