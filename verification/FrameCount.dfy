// Counting ends of frames: the recorder cannot capture more frames than the words carry end
// flags, so a region that receives two ends loses a frame.
module FrameCount {
  import opened Numbers
  import opened Options
  import opened MfbStream
  import opened FrameRecorder
  import opened CapturedWords
  import opened RecorderStream
  import opened FrameLayout
  import opened MfbRoundTrip

  // ---------------------------------------------------------------- the recorder's side

  // End flags of a word.
  function EndFlags(m: Mfb, vld: nat): nat {
    PopCount(Field(m, vld, Eof))
  }

  function Pending(m: Mfb, words: seq<CapturedWord>): nat {
    if words == [] then 0 else EndFlags(m, words[|words| - 1].vld)
  }

  lemma FieldAnd(m: Mfb, vld: nat, mask: nat)
    ensures Field(m, And(vld, mask), Eof) == And(Field(m, vld, Eof), Shr(mask, 1))
  {
    ShrAnd(vld, mask, 1);
    LowAnd(Shr(vld, 1), Shr(mask, 1), m.regions);
  }

  lemma RemoveSofFlags(m: Mfb, w: CapturedWord, reg: nat)
    ensures EndFlags(m, Remove(m, w, Sof, reg).vld) <= EndFlags(m, w.vld)
  {
    FieldAnd(m, w.vld, HoleMask(m, Sof, reg));
    UpsAnd(Field(m, w.vld, Eof), Shr(HoleMask(m, Sof, reg), 1));
  }

  // Clearing the end flag of region reg, where v is the word before any masking.
  lemma RemoveEofFlags(m: Mfb, w: CapturedWord, reg: nat)
    requires reg < m.regions
    ensures EndFlags(m, Remove(m, w, Eof, reg).vld) <= EndFlags(m, w.vld)
    ensures Bit(Field(m, w.vld, Eof), reg) ==> EndFlags(m, Remove(m, w, Eof, reg).vld) < EndFlags(m, w.vld)
  {
    var mask := HoleMask(m, Eof, reg);
    FieldAnd(m, w.vld, mask);
    UpsAnd(Field(m, w.vld, Eof), Shr(mask, 1));
    HoleMaskBits(m, Eof, reg);
    BitPack(HoleBits(m, Eof, reg), 1 + reg);
    BitShr(mask, 1, reg);
    if Bit(Field(m, w.vld, Eof), reg) { UpsAndDrops(Field(m, w.vld, Eof), Shr(mask, 1), reg); }
  }

  lemma SofKeepsEnd(m: Mfb, w: CapturedWord, r: nat, reg: nat)
    requires reg < m.regions && Bit(Field(m, w.vld, Eof), reg)
    ensures Bit(Field(m, Remove(m, w, Sof, r).vld, Eof), reg)
  {
    var mask := HoleMask(m, Sof, r);
    FieldAnd(m, w.vld, mask);
    BitAnd(Field(m, w.vld, Eof), Shr(mask, 1), reg);
    HoleMaskBits(m, Sof, r);
    BitPack(HoleBits(m, Sof, r), 1 + reg);
    BitShr(mask, 1, reg);
  }

  // After each captured frame the buffer has at least one end flag less.
  lemma InitializeCounts(m: Mfb, words: seq<CapturedWord>)
    requires words != [] && AllShaped(m, words) && Detect(m, words[|words| - 1], Eof).detected
    ensures Pending(m, InitializeMfb(m, words)) < Pending(m, words)
  {
    hide Remove, HoleMask, Field;
    var w := words[|words| - 1];
    var s, e := Detect(m, w, Sof), Detect(m, w, Eof);
    DetectedBit(m, w);
    var t := Remove(m, w, Sof, s.reg);
    SofKeepsEnd(m, w, s.reg, e.reg);
    RemoveSofFlags(m, w, s.reg);
    RemoveEofFlags(m, t, e.reg);
    RemoveEofFlags(m, w, e.reg);
  }

  lemma DetectedBit(m: Mfb, w: CapturedWord)
    requires Detect(m, w, Eof).detected
    ensures Detect(m, w, Eof).reg < m.regions && Bit(Field(m, w.vld, Eof), Detect(m, w, Eof).reg)
    ensures EndFlags(m, w.vld) > 0
  {
    BitLowest(Field(m, w.vld, Eof));
    UpsPositive(Field(m, w.vld, Eof));
  }

  lemma DecodeDetects(m: Mfb, words: seq<CapturedWord>)
    requires m.Valid() && AllShaped(m, words)
    requires DecodePacket(m, words).Success? && DecodePacket(m, words).value.Some?
    ensures words != [] && Detect(m, words[|words| - 1], Eof).detected
  {
    hide Piece, Detect;
  }

  lemma {:induction false} DrainCounts(m: Mfb, st: State)
    requires m.Valid() && AllShaped(m, st.words)
    ensures Drain(m, st).Success? ==> |Drain(m, st).value.packets| <= |st.packets| + Pending(m, st.words)
    decreases Weight(st.words)
  {
    hide DecodePacket, Detect, InitializeMfb, Pending;
    var d := DecodePacket(m, st.words);
    if d.Success? && d.value.Some? {
      DecodeDetects(m, st.words);
      InitializeCounts(m, st.words);
      DecodeDrops(m, st.words);
      DrainStep(m, st.words, st.packets, d.value.value);
      DrainCounts(m, State(InitializeMfb(m, st.words), st.packets + [d.value.value]));
    }
  }

  // End flags of the first n words.
  function FlagTotal(m: Mfb, bws: seq<BusWord>, n: nat): nat
    requires n <= |bws|
  {
    if n == 0 then 0 else FlagTotal(m, bws, n - 1) + EndFlags(m, bws[n - 1].vld)
  }

  // From any words at all, at most as many frames are captured as there are end flags.
  lemma {:induction false} RunCounts(m: Mfb, bws: seq<BusWord>, n: nat)
    requires m.Valid() && n <= |bws|
    ensures Run(m, bws, n).Success? ==> |Run(m, bws, n).value.packets| <= FlagTotal(m, bws, n)
    decreases n
  {
    hide Drain, EndFlags, Blocks;
    if n > 0 {
      RunCounts(m, bws, n - 1);
      var r := Run(m, bws, n - 1);
      if r.Success? {
        DrainCounts(m, State(r.value.words + [Capture(m, bws[n - 1])], r.value.packets));
      }
    }
  }

  // ---------------------------------------------------------------- the player's side

  // Ends in the slots [lo, hi).
  function Ends(ws: seq<Slot>, lo: nat, hi: nat): nat
    requires lo <= hi
    decreases hi
  {
    if lo == hi then 0 else Ends(ws, lo, hi - 1) + if hi - 1 < |ws| && ws[hi - 1].eof then 1 else 0
  }

  lemma {:induction false} EndsJoin(ws: seq<Slot>, a: nat, b: nat, c: nat)
    requires a <= b <= c
    ensures Ends(ws, a, b) + Ends(ws, b, c) == Ends(ws, a, c)
    decreases c
  {
    if b < c { EndsJoin(ws, a, b, c - 1); }
  }

  lemma {:induction false} EndsPositive(ws: seq<Slot>, lo: nat, hi: nat, i: nat)
    requires lo <= i < hi && i < |ws| && ws[i].eof
    ensures Ends(ws, lo, hi) >= 1
    decreases hi
  {
    if i < hi - 1 { EndsPositive(ws, lo, hi - 1, i); }
  }

  // A region shows one flag however many ends it has.
  lemma RegionEnds(m: Mfb, ws: seq<Slot>, r: nat)
    ensures RegionFlag(m, ws, Eof, 0, r) <= Ends(ws, m.Base(r), m.Base(r) + m.regionSize)
    ensures !SingleMark(m, ws, Eof, r) ==> RegionFlag(m, ws, Eof, 0, r) < Ends(ws, m.Base(r), m.Base(r) + m.regionSize)
  {
    var lo := m.Base(r);
    var hi := lo + m.regionSize;
    var o := RegionMark(m, ws, Eof, r);
    if o.Some? {
      EndsPositive(ws, lo, hi, o.value);
      if !SingleMark(m, ws, Eof, r) {
        var i :| lo <= i < hi && i < |ws| && ws[i].Has(Eof) && o != Some(i);
        EndsPositive(ws, lo, i + 1, i);
        EndsPositive(ws, i + 1, hi, o.value);
        EndsJoin(ws, lo, i + 1, hi);
      }
    }
  }

  lemma {:induction false} RegionsEnds(m: Mfb, ws: seq<Slot>, n: nat)
    requires n <= m.regions
    ensures Sum(Flags(m, ws, Eof, 0)[..n]) <= Ends(ws, 0, m.Base(n))
    ensures !SingleMarks(m, ws, Eof, n) ==> Sum(Flags(m, ws, Eof, 0)[..n]) < Ends(ws, 0, m.Base(n))
    decreases n
  {
    hide SingleMark, Flags;
    if n > 0 {
      RegionsEnds(m, ws, n - 1);
      RegionEnds(m, ws, n - 1);
      EndsJoin(ws, 0, m.Base(n - 1), m.Base(n));
      var fs := Flags(m, ws, Eof, 0)[..n];
      SumLast(fs);
      assert fs[..n - 1] == Flags(m, ws, Eof, 0)[..n - 1];
    }
  }

  // The flags written for a word never exceed its ends, and are fewer if two ends share a region.
  lemma WordEnds(m: Mfb, ws: seq<Slot>)
    ensures EndFlags(m, VldReg(m, ws, 0, 0)) <= Ends(ws, 0, m.Slots())
    ensures !SingleMarks(m, ws, Eof, m.regions) ==> EndFlags(m, VldReg(m, ws, 0, 0)) < Ends(ws, 0, m.Slots())
  {
    hide Field, VldReg, SingleMarks;
    FieldOf(m, ws, 0, 0, Eof);
    var fs := Flags(m, ws, Eof, 0);
    UpsPack(fs, Sum(fs));
    RegionsEnds(m, ws, m.regions);
    assert fs[..m.regions] == fs;
  }

  // Every end of an alternating word completes a frame.
  lemma {:induction false} EndsAreFrames(m: Mfb, p: Progress, ws: seq<Slot>, n: nat)
    requires ValidSlots(m, ws) && Alternating(m, p, ws) && n <= |ws|
    ensures |ParseTo(m, p, ws, n).frames| == |p.frames| + Ends(ws, 0, n)
    decreases n
  {
    hide Parse;
    if n == 0 {
      ParseEnds(m, p, ws);
    } else {
      EndsAreFrames(m, p, ws, n - 1);
      ParseNext(m, p, ws, n - 1);
    }
  }

  lemma {:induction false} EndsBeyond(ws: seq<Slot>, hi: nat)
    requires |ws| <= hi
    ensures Ends(ws, 0, hi) == Ends(ws, 0, |ws|)
    decreases hi
  {
    if |ws| < hi { EndsBeyond(ws, hi - 1); }
  }

  // One word filled after the progress p: its flags against the frames it completes.
  lemma FillCounts(m: Mfb, p: Progress, ws: seq<Slot>)
    requires m.Valid() && GoodFill(m, p, ws)
    ensures |p.frames| + EndFlags(m, VldReg(m, ws, 0, 0)) <= |Parse(m, p, ws).frames|
    ensures !SingleMarks(m, ws, Eof, m.regions) ==>
      |p.frames| + EndFlags(m, VldReg(m, ws, 0, 0)) < |Parse(m, p, ws).frames|
  {
    hide Parse, SingleMarks, VldReg, EndFlags;
    WordEnds(m, ws);
    EndsAreFrames(m, p, ws, |ws|);
    EndsBeyond(ws, m.Slots());
    ParseEnds(m, p, ws);
  }

  lemma {:induction false} SentCounts(m: Mfb, sent: seq<seq<Slot>>, n: nat)
    requires m.Valid() && GoodSent(m, sent) && n <= |sent|
    ensures FlagTotal(m, Encoded(m, sent), n) <= |ParseWords(m, sent, n).frames|
    ensures (exists k :: 0 <= k < n && !SingleMarks(m, sent[k], Eof, m.regions)) ==>
      FlagTotal(m, Encoded(m, sent), n) < |ParseWords(m, sent, n).frames|
    decreases n
  {
    hide *;
    SentAt(m, sent, n);
    StartFrames(m, sent);
    if n > 0 {
      SentCounts(m, sent, n - 1);
      ParseWordsStep(m, sent, n - 1);
      FillCounts(m, ParseWords(m, sent, n - 1), sent[n - 1]);
    }
  }

  lemma SentAt(m: Mfb, sent: seq<seq<Slot>>, n: nat)
    requires GoodSent(m, sent) && n <= |sent|
    ensures AllValid(m, sent) && FlagTotal(m, Encoded(m, sent), 0) == 0 && |Encoded(m, sent)| == |sent|
    ensures n > 0 ==> GoodFill(m, ParseWords(m, sent, n - 1), sent[n - 1])
    ensures n > 0 ==>
      FlagTotal(m, Encoded(m, sent), n)
        == FlagTotal(m, Encoded(m, sent), n - 1) + EndFlags(m, VldReg(m, sent[n - 1], 0, 0))
  {
    hide EndFlags, VldReg, GoodFill, ParseWords;
  }

  lemma StartFrames(m: Mfb, sent: seq<seq<Slot>>)
    requires AllValid(m, sent)
    ensures ParseWords(m, sent, 0) == START
  {
  }

  lemma {:induction false} FlagTotalPrefix(m: Mfb, xs: seq<BusWord>, x: BusWord, n: nat)
    requires n <= |xs|
    ensures FlagTotal(m, xs + [x], n) == FlagTotal(m, xs, n)
    decreases n
  {
    if n > 0 { FlagTotalPrefix(m, xs, x, n - 1); }
  }

  lemma FlagTotalNext(m: Mfb, bws: seq<BusWord>, n: nat)
    requires n < |bws|
    ensures FlagTotal(m, bws, n + 1) == FlagTotal(m, bws, n) + EndFlags(m, bws[n].vld)
  {
  }

  lemma EmittedCounts(m: Mfb, lay: Layout)
    requires m.Valid() && GoodLayout(m, lay) && !SingleEnds(m, lay)
    ensures FlagTotal(m, Emitted(m, lay), |Emitted(m, lay)|) < |Meaning(m, lay).frames|
  {
    hide Parse, ParseWords, SingleMarks, VldReg, EndFlags, GoodFill, UsedBytes, PosReg, FlagTotal;
    var n := |lay.sent|;
    SentCounts(m, lay.sent, n);
    EncodedCount(m, lay.sent);
    FillCounts(m, ParseWords(m, lay.sent, n), lay.cur);
    var last := Encode(m, lay.cur, UsedBytes(lay.cur));
    FlagTotalPrefix(m, Encoded(m, lay.sent), last, n);
    FlagTotalNext(m, Encoded(m, lay.sent) + [last], n);
  }

  // Two ends in one region lose a frame, whatever the data.
  lemma DoubleEndLoses(m: Mfb, lay: Layout)
    requires m.Valid() && GoodLayout(m, lay) && !SingleEnds(m, lay)
    ensures Recorded(m, lay).Success? ==> |Recorded(m, lay).value.packets| < |Meaning(m, lay).frames|
  {
    hide *;
    EmittedCounts(m, lay);
    RunCounts(m, Emitted(m, lay), |Emitted(m, lay)|);
    RecordedIs(m, lay);
  }
}
