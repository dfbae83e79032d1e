// Player and recorder together: what is recorded from the words the player writes.
module MfbRoundTrip {
  import opened Numbers
  import opened MfbStream
  import opened FrameRecorder
  import opened CapturedWords
  import opened RecorderStream
  import opened RecorderExactness
  import opened FrameLayout

  // ---------------------------------------------------------------- the last word

  lemma {:induction false} UsedFlat(ws: seq<Slot>)
    requires AllUsed(ws)
    ensures UsedBytes(ws) == Flat(ws)
  {
    if ws != [] { UsedFlat(ws[..|ws| - 1]); }
  }

  lemma PadSame(m: Mfb, ws: seq<Slot>, mark: Mark, r: nat)
    ensures RegionMark(m, ws + [PadSlot(m)], mark, r) == RegionMark(m, ws, mark, r)
  {
    LastMarkSame(ws, PadSlot(m), mark, m.Base(r), m.Base(r) + m.regionSize);
  }

  // Unwritten high blocks of the bus read as padding.
  lemma {:induction false} EncodePads(m: Mfb, ws: seq<Slot>, n: nat)
    ensures Encode(m, ws + Pads(m, n), Flat(ws + Pads(m, n))) == Encode(m, ws, Flat(ws))
  {
    hide Flat, Pack, Unpack;
    if n == 0 {
      assert ws + Pads(m, 0) == ws;
    } else {
      EncodePads(m, ws, n - 1);
      EncodePad(m, ws + Pads(m, n - 1));
      assert ws + Pads(m, n - 1) + [PadSlot(m)] == ws + Pads(m, n);
    }
  }

  lemma EncodePad(m: Mfb, ws: seq<Slot>)
    ensures Encode(m, ws + [PadSlot(m)], Flat(ws + [PadSlot(m)])) == Encode(m, ws, Flat(ws))
  {
    var t := ws + [PadSlot(m)];
    ZerosAbove(Flat(ws), m.blockSize);
    assert t[..|ws|] == ws;
    forall mark: Mark, r: nat
      ensures RegionMark(m, t, mark, r) == RegionMark(m, ws, mark, r)
    {
      PadSame(m, ws, mark, r);
    }
    RegistersSame(m, ws, t);
  }

  lemma ZerosAbove(bs: seq<byte>, n: nat)
    ensures Pack(8, bs + Repeat<byte>(0, n)) == Pack(8, bs)
  {
    var xs: seq<nat>, zs: seq<nat> := bs, Repeat<nat>(0, n);
    assert bs + Repeat<byte>(0, n) == xs + zs;
    PackAppend(8, xs, zs);
    PackZeros(8, n);
    ShlIsZero(Times(|xs|, 8));
  }

  lemma RegistersSame(m: Mfb, ws: seq<Slot>, t: seq<Slot>)
    requires ws <= t && forall mark: Mark, r: nat :: RegionMark(m, t, mark, r) == RegionMark(m, ws, mark, r)
    ensures PosReg(m, t, Sof) == PosReg(m, ws, Sof) && PosReg(m, t, Eof) == PosReg(m, ws, Eof)
    ensures VldReg(m, t, 0, 0) == VldReg(m, ws, 0, 0)
  {
    forall mark: Mark
      ensures Positions(m, t, mark) == Positions(m, ws, mark) && Flags(m, t, mark, 0) == Flags(m, ws, mark, 0)
    {
    }
  }

  // ---------------------------------------------------------------- ends and frames

  ghost predicate NonemptyOpen(p: Progress) {
    p.open.Some? ==> p.open.value != []
  }

  lemma {:induction false} OpenNonempty(m: Mfb, p: Progress, ws: seq<Slot>)
    requires m.Valid() && ValidSlots(m, ws) && NonemptyOpen(p)
    ensures NonemptyOpen(Parse(m, p, ws))
  {
    if ws != [] { OpenNonempty(m, p, ws[..|ws| - 1]); }
  }

  lemma {:induction false} WordsOpenNonempty(m: Mfb, wss: seq<seq<Slot>>, n: nat)
    requires m.Valid() && AllValid(m, wss) && n <= |wss|
    ensures NonemptyOpen(ParseWords(m, wss, n))
    decreases n
  {
    hide Parse;
    if n > 0 {
      WordsOpenNonempty(m, wss, n - 1);
      OpenNonempty(m, ParseWords(m, wss, n - 1), wss[n - 1]);
    }
  }

  lemma {:induction false} WordsExtend(m: Mfb, wss: seq<seq<Slot>>, k: nat, n: nat)
    requires AllValid(m, wss) && k <= n <= |wss|
    ensures Extends(ParseWords(m, wss, k).frames, ParseWords(m, wss, n).frames)
    ensures (forall i :: k <= i < n ==> NoneFrom(wss[i], Eof, 0)) ==>
      ParseWords(m, wss, n).frames == ParseWords(m, wss, k).frames
    decreases n
  {
    hide Parse, ParseWords;
    if k < n {
      WordsExtend(m, wss, k, n - 1);
      var p := ParseWords(m, wss, n - 1);
      ParseWordsStep(m, wss, n - 1);
      ParseExtends(m, p, wss[n - 1]);
      ParseEnds(m, p, wss[n - 1]);
      if NoneFrom(wss[n - 1], Eof, 0) { NoMoreFrames(m, p, wss[n - 1], 0, |wss[n - 1]|); }
    }
  }

  // Progress just before slot e of word k.
  function Before(m: Mfb, wss: seq<seq<Slot>>, k: nat, e: nat): Progress
    requires AllValid(m, wss) && k < |wss| && e <= |wss[k]|
  {
    ParseTo(m, ParseWords(m, wss, k), wss[k], e)
  }

  ghost predicate EndAt(wss: seq<seq<Slot>>, k: nat, e: nat) {
    k < |wss| && e < |wss[k]| && wss[k][e].eof
  }

  // An end completes one frame, and that frame is a single byte exactly if the slot says so.
  lemma EndStep(m: Mfb, wss: seq<seq<Slot>>, k: nat, e: nat)
    requires Conforming(m, wss) && EndAt(wss, k, e)
    ensures |Before(m, wss, k, e + 1).frames| == |Before(m, wss, k, e).frames| + 1
    ensures |Before(m, wss, k, e + 1).frames[|Before(m, wss, k, e).frames|]| == 1 <==> OneByte(wss[k][e])
  {
    hide Parse, ParseWords, SingleMarks;
    var p := ParseWords(m, wss, k);
    WordsOpenNonempty(m, wss, k);
    OpenNonempty(m, p, wss[k][..e]);
    ParseNext(m, p, wss[k], e);
    assert Alternating(m, p, wss[k]);
  }

  lemma ToFinal(m: Mfb, wss: seq<seq<Slot>>, k: nat, e: nat)
    requires AllValid(m, wss) && k < |wss| && e <= |wss[k]|
    ensures Extends(Before(m, wss, k, e).frames, ParseWords(m, wss, |wss|).frames)
    ensures NoneFrom(wss[k], Eof, e) && NoEndFrom(wss, k + 1) ==>
      ParseWords(m, wss, |wss|).frames == Before(m, wss, k, e).frames
  {
    hide Parse, ParseWords;
    var p := ParseWords(m, wss, k);
    RestExtends(m, p, wss[k], e);
    ParseWordsStep(m, wss, k);
    WordsExtend(m, wss, k + 1, |wss|);
    if NoneFrom(wss[k], Eof, e) {
      NoMoreFrames(m, p, wss[k], e, |wss[k]|);
      ParseEnds(m, p, wss[k]);
    }
  }

  lemma FromLater(m: Mfb, wss: seq<seq<Slot>>, k: nat, e: nat, l: nat, f: nat)
    requires AllValid(m, wss) && k < |wss| && l < |wss| && f <= |wss[l]| && e <= |wss[k]|
    requires k < l || (k == l && e <= f)
    ensures |Before(m, wss, k, e).frames| <= |Before(m, wss, l, f).frames|
  {
    hide Parse, ParseWords;
    if k == l {
      var p := ParseWords(m, wss, k);
      assert wss[k][..f][..e] == wss[k][..e];
      assert wss[k][..e] + wss[k][e..f] == wss[k][..f];
      ParseAppend(m, p, wss[k][..e], wss[k][e..f]);
      ParseExtends(m, Before(m, wss, k, e), wss[k][e..f]);
    } else {
      RestExtends(m, ParseWords(m, wss, k), wss[k], e);
      ParseWordsStep(m, wss, k);
      WordsExtend(m, wss, k + 1, l);
      ParseExtends(m, ParseWords(m, wss, l), wss[l][..f]);
    }
  }

  // The end of a frame, seen from the final list of frames.
  lemma EndInFinal(m: Mfb, wss: seq<seq<Slot>>, k: nat, e: nat)
    requires Conforming(m, wss) && EndAt(wss, k, e)
    ensures var i, fs := |Before(m, wss, k, e).frames|, ParseWords(m, wss, |wss|).frames;
      && i < |fs|
      && (|fs[i]| == 1 <==> OneByte(wss[k][e]))
      && (i == |fs| - 1 <==> NoneFrom(wss[k], Eof, e + 1) && NoEndFrom(wss, k + 1))
  {
    hide Parse, ParseWords, SingleMarks, Before, Alternating, OneByte;
    var fs := ParseWords(m, wss, |wss|).frames;
    var i := |Before(m, wss, k, e).frames|;
    EndStep(m, wss, k, e);
    ToFinal(m, wss, k, e + 1);
    assert fs[i] == fs[..i + 1][i];
    if !NoneFrom(wss[k], Eof, e + 1) {
      var f :| e + 1 <= f < |wss[k]| && wss[k][f].Has(Eof);
      FromLater(m, wss, k, e + 1, k, f);
      EndStep(m, wss, k, f);
      ToFinal(m, wss, k, f + 1);
    } else if !NoEndFrom(wss, k + 1) {
      var l :| k + 1 <= l < |wss| && !NoneFrom(wss[l], Eof, 0);
      var f :| 0 <= f < |wss[l]| && wss[l][f].Has(Eof);
      FromLater(m, wss, k, e + 1, l, f);
      EndStep(m, wss, l, f);
      ToFinal(m, wss, l, f + 1);
    }
  }

  // Every frame has an end.
  lemma {:induction false} EndOf(m: Mfb, wss: seq<seq<Slot>>, n: nat, i: nat) returns (k: nat, e: nat)
    requires Conforming(m, wss) && n <= |wss| && i < |ParseWords(m, wss, n).frames|
    ensures EndAt(wss, k, e) && |Before(m, wss, k, e).frames| == i
    decreases n
  {
    hide Parse, SingleMarks, Alternating, Before;
    if n > 0 {
      if i < |ParseWords(m, wss, n - 1).frames| {
        k, e := EndOf(m, wss, n - 1, i);
      } else {
        k := n - 1;
        BeforeEnds(m, wss, k);
        e := EndInWord(m, wss, k, |wss[k]|, i);
      }
    }
  }

  lemma BeforeEnds(m: Mfb, wss: seq<seq<Slot>>, k: nat)
    requires AllValid(m, wss) && k < |wss|
    ensures Before(m, wss, k, 0) == ParseWords(m, wss, k)
    ensures Before(m, wss, k, |wss[k]|) == ParseWords(m, wss, k + 1)
  {
    hide Parse;
    ParseEnds(m, ParseWords(m, wss, k), wss[k]);
  }

  lemma {:induction false} EndInWord(m: Mfb, wss: seq<seq<Slot>>, k: nat, f: nat, i: nat) returns (e: nat)
    requires AllValid(m, wss) && k < |wss| && f <= |wss[k]|
    requires |Before(m, wss, k, 0).frames| <= i < |Before(m, wss, k, f).frames|
    ensures EndAt(wss, k, e) && |Before(m, wss, k, e).frames| == i
    decreases f
  {
    hide Parse, ParseWords;
    if f > 0 {
      ParseNext(m, ParseWords(m, wss, k), wss[k], f - 1);
      if i < |Before(m, wss, k, f - 1).frames| {
        e := EndInWord(m, wss, k, f - 1, i);
      } else {
        e := f - 1;
      }
    }
  }

  // Every frame but the last has at least two bytes.
  ghost predicate LongButLast(frames: seq<seq<byte>>) {
    forall i :: 0 <= i < |frames| - 1 ==> |frames[i]| != 1
  }

  lemma OneByteFrames(m: Mfb, wss: seq<seq<Slot>>)
    requires Conforming(m, wss)
    ensures OneByteOnlyLast(wss, |wss|) <==> LongButLast(ParseWords(m, wss, |wss|).frames)
  {
    hide Parse, ParseWords, SingleMarks, Alternating, OneByte, Before;
    var fs := ParseWords(m, wss, |wss|).frames;
    if OneByteOnlyLast(wss, |wss|) {
      forall i | 0 <= i < |fs| - 1
        ensures |fs[i]| != 1
      {
        var k, e := EndOf(m, wss, |wss|, i);
        EndInFinal(m, wss, k, e);
      }
    } else {
      var k :| 0 <= k < |wss| && !OneByteLast(wss[k], !NoEndFrom(wss, k + 1));
      var e := FirstOneByte(wss[k], !NoEndFrom(wss, k + 1));
      OneByteEnds(wss[k][e]);
      EndInFinal(m, wss, k, e);
    }
  }

  lemma OneByteEnds(s: Slot)
    requires OneByte(s)
    ensures s.eof
  {
  }

  // ---------------------------------------------------------------- the round trip

  lemma EmptyGood(m: Mfb)
    requires m.Valid()
    ensures GoodLayout(m, EMPTY) && Meaning(m, EMPTY) == START && Regular(m, EMPTY)
  {
    SingleNothing(m, Sof, m.regions);
    SingleNothing(m, Eof, m.regions);
  }

  // The words on the bus: those sent and the last one, padded.
  function BusWords(m: Mfb, lay: Layout): seq<seq<Slot>>
    requires |lay.cur| <= m.Slots()
  {
    lay.sent + [lay.cur + Pads(m, m.Slots() - |lay.cur|)]
  }

  // Without a gap in its last word, what is written is the image of these words.
  lemma EmittedEncoded(m: Mfb, lay: Layout)
    requires |lay.cur| <= m.Slots() && AllUsed(lay.cur)
    ensures Emitted(m, lay) == Encoded(m, BusWords(m, lay))
  {
    hide Encode;
    UsedFlat(lay.cur);
    EncodePads(m, lay.cur, m.Slots() - |lay.cur|);
  }

  lemma {:induction false} SingleEndPads(m: Mfb, ws: seq<Slot>, n: nat)
    requires SingleMarks(m, ws, Eof, m.regions)
    ensures SingleMarks(m, ws + Pads(m, n), Eof, m.regions)
  {
    hide SingleMarks;
    if n == 0 {
      assert ws + Pads(m, 0) == ws;
    } else {
      SingleEndPads(m, ws, n - 1);
      SingleAppend(m, ws + Pads(m, n - 1), PadSlot(m), Eof, m.regions);
      assert ws + Pads(m, n - 1) + [PadSlot(m)] == ws + Pads(m, n);
    }
  }

  // A finished layout with single ends is a conforming, never idle stream of its frames.
  lemma LayoutConforms(m: Mfb, lay: Layout)
    requires GoodLayout(m, lay) && SingleEnds(m, lay) && Meaning(m, lay).open.None? && lay.cur != []
    ensures Conforming(m, BusWords(m, lay)) && NoIdleWord(m, BusWords(m, lay))
    ensures ParseWords(m, BusWords(m, lay), |BusWords(m, lay)|) == Meaning(m, lay)
  {
    hide Parse, ParseWords, SingleMarks, Alternating;
    var p := ParseWords(m, lay.sent, |lay.sent|);
    var n := m.Slots() - |lay.cur|;
    var last := lay.cur + Pads(m, n);
    FillPads(m, p, lay.cur, n);
    SingleEndPads(m, lay.cur, n);
    SentAppend(m, lay.sent, last);
    SentConforms(m, BusWords(m, lay));
  }

  lemma SentConforms(m: Mfb, wss: seq<seq<Slot>>)
    requires m.Valid() && GoodSent(m, wss)
    requires forall k :: 0 <= k < |wss| ==> SingleMarks(m, wss[k], Eof, m.regions)
    ensures Conforming(m, wss) && NoIdleWord(m, wss)
  {
    hide Parse, ParseWords, SingleMarks, Alternating, ValidSlots;
    SlotsPositive(m);
    forall k | 0 <= k < |wss|
      ensures WordSlots(m, wss[k]) && Alternating(m, ParseWords(m, wss, k), wss[k])
      ensures ParseWords(m, wss, k).open.Some? || NextMark(wss[k], Sof, 0).Some?
    {
      assert GoodFill(m, ParseWords(m, wss, k), wss[k]);
    }
  }

  // What the recorder captures from everything the player writes.
  function Recorded(m: Mfb, lay: Layout): Result<State>
    requires m.Valid()
  {
    Run(m, Emitted(m, lay), |Emitted(m, lay)|)
  }

  lemma EncodedCount(m: Mfb, wss: seq<seq<Slot>>)
    ensures |Encoded(m, wss)| == |wss|
  {
  }

  lemma RecordedIs(m: Mfb, lay: Layout)
    requires m.Valid()
    ensures Recorded(m, lay) == Run(m, Emitted(m, lay), |Emitted(m, lay)|)
  {
  }
}
