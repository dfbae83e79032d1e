// The recorder against the reference parser: on a conforming stream of words it captures
// exactly the frames the stream carries.
module RecorderStream {
  import opened Numbers
  import opened Options
  import opened MfbStream
  import opened FrameRecorder
  import opened CapturedWords

  lemma {:induction false} Locate(m: Mfb, n: nat, i: nat) returns (r: nat, p: nat)
    requires i < m.Base(n)
    ensures r < n && p < m.regionSize && i == m.Base(r) + p
  {
    if i >= m.Base(n - 1) {
      r, p := n - 1, i - m.Base(n - 1);
    } else {
      r, p := Locate(m, n - 1, i);
    }
  }

  // The frame ending in this slot is a single byte.
  predicate OneByte(s: Slot) {
    s.sof && s.eof && s.last == 0
  }

  // ---------------------------------------------------------------- decoding a buffer

  // A frame inside one word.
  lemma DecodeOne(m: Mfb, ws: seq<Slot>, cs: nat, ce: nat, s: nat, e: nat)
    requires WordSlots(m, ws) && IsNext(ws, Sof, cs, s) && IsNext(ws, Eof, ce, e) && s <= e
    ensures DecodePacket(m, [WordOf(m, ws, cs, ce)]) == Success(Some(FrameBytes(ws, s, e)))
  {
    hide WordOf, Detect, Serialize, Flat, SingleMarks, Piece;
    var w := WordOf(m, ws, cs, ce);
    var rs, ps := Locate(m, m.regions, s);
    var re, pe := Locate(m, m.regions, e);
    DetectOf(m, ws, cs, ce, Sof, s, rs, ps);
    DetectOf(m, ws, cs, ce, Eof, e, re, pe);
    SerializeTo(m, ws, cs, ce, s, rs, ps, e, re, pe);
    var fs, fe := Detect(m, w, Sof), Detect(m, w, Eof);
    OnePiece(m, w, fs, fe, FrameBytes(ws, s, e));
  }

  lemma OnePiece(m: Mfb, w: CapturedWord, s: Found, e: Found, bytes: seq<byte>)
    requires m.Valid() && w.Shaped(m)
    requires Serialize(m, w, s.reg, s.pos, e.reg, e.pos) == Success(bytes)
    ensures Pieces(m, [w], s, e, 1) == Success(bytes)
  {
    assert Pieces(m, [w], s, e, 0) == Success([]);
    assert [] + bytes == bytes;
  }

  // Captured words of consecutive slot words, the first with its cursors at c and x.
  ghost predicate Images(m: Mfb, words: seq<CapturedWord>, wss: seq<seq<Slot>>, c: nat, x: nat) {
    && |words| == |wss|
    && (forall i :: 0 <= i < |wss| ==> FullWord(m, wss[i]))
    && (forall i :: 0 <= i < |wss| ==> words[i] == WordOf(m, wss[i], if i == 0 then c else 0, if i == 0 then x else 0))
  }

  function Tail(ws: seq<Slot>, i: nat, c: nat): seq<Slot>
    requires c <= |ws|
  {
    ws[if i == 0 then c else 0..]
  }

  // The bytes word i contributes when more words follow it.
  lemma ImagePiece(m: Mfb, words: seq<CapturedWord>, wss: seq<seq<Slot>>, c: nat, x: nat, fs: Found, fe: Found, i: nat)
    requires m.Valid() && Images(m, words, wss, c, x) && i < |words| - 1 && words[0] != words[|words| - 1]
    requires c < m.Slots() && InRegion(m, c, fs.reg, fs.pos)
    ensures Piece(m, words, fs, fe, i) == Success(Flat(Tail(wss[i], i, c)))
  {
    hide Serialize, WordOf;
    if i == 0 {
      SerializeRest(m, wss[0], c, x, c, fs.reg, fs.pos);
    } else {
      SerializeRest(m, wss[i], 0, 0, 0, 0, 0);
    }
  }

  // The bytes of the last of several words, up to the frame's end in slot e.
  lemma ImageLast(m: Mfb, words: seq<CapturedWord>, wss: seq<seq<Slot>>, c: nat, x: nat, fs: Found, fe: Found,
      e: nat, pe: nat)
    requires m.Valid() && Images(m, words, wss, c, x) && |words| >= 2 && words[0] != words[|words| - 1]
    requires e < m.Slots() && wss[|wss| - 1][e].eof && InRegion(m, e, fe.reg, pe)
    requires fe.pos == m.Bytes(pe) + wss[|wss| - 1][e].last
    ensures Piece(m, words, fs, fe, |words| - 1) == Success(FrameBytes(wss[|wss| - 1], 0, e))
  {
    hide Serialize, WordOf;
    SerializeTo(m, wss[|wss| - 1], 0, 0, 0, 0, 0, e, fe.reg, pe);
  }

  function Joined(wss: seq<seq<Slot>>, c: nat, n: nat): seq<Slot>
    requires n <= |wss| && forall i :: 0 <= i < |wss| ==> c <= |wss[i]|
  {
    if n == 0 then [] else Joined(wss, c, n - 1) + Tail(wss[n - 1], n - 1, c)
  }

  lemma FlatNothing()
    ensures Flat([]) == []
  {
  }

  // All words but the last contribute their bytes from the frame's start on.
  lemma {:induction false} PiecesUpTo(m: Mfb, words: seq<CapturedWord>, wss: seq<seq<Slot>>, c: nat, x: nat,
      fs: Found, fe: Found, n: nat)
    requires m.Valid() && Images(m, words, wss, c, x) && n < |words| && words[0] != words[|words| - 1]
    requires c < m.Slots() && InRegion(m, c, fs.reg, fs.pos)
    ensures Pieces(m, words, fs, fe, n) == Success(Flat(Joined(wss, c, n)))
    decreases n
  {
    hide Piece, Serialize, WordOf, Flat;
    if n == 0 {
      assert Joined(wss, c, 0) == [] && Flat([]) == [] by { FlatNothing(); }
    } else {
      PiecesUpTo(m, words, wss, c, x, fs, fe, n - 1);
      ImagePiece(m, words, wss, c, x, fs, fe, n - 1);
      FlatAppend(Joined(wss, c, n - 1), Tail(wss[n - 1], n - 1, c));
    }
  }

  // A buffer whose head shows no end differs from a word that shows one.
  lemma HeadDiffers(m: Mfb, ws: seq<Slot>, c: nat, x: nat, w: CapturedWord)
    requires |ws| == m.Slots() && NoneFrom(ws, Eof, x) && Detect(m, w, Eof).detected
    ensures WordOf(m, ws, c, x) != w
  {
    DetectNone(m, ws, c, x, Eof);
  }

  // A frame from slot c of the first word to slot e of the last of several words.
  lemma DecodeImages(m: Mfb, words: seq<CapturedWord>, wss: seq<seq<Slot>>, c: nat, x: nat, e: nat)
    requires Images(m, words, wss, c, x) && |wss| >= 2
    requires WordSlots(m, wss[0]) && IsNext(wss[0], Sof, c, c) && NoneFrom(wss[0], Eof, x)
    requires WordSlots(m, wss[|wss| - 1]) && IsNext(wss[|wss| - 1], Eof, 0, e)
    ensures DecodePacket(m, words) == Success(Some(Flat(Joined(wss, c, |wss| - 1)) + FrameBytes(wss[|wss| - 1], 0, e)))
  {
    hide Piece, WordOf, Detect;
    var n := |wss| - 1;
    var rs, ps := Locate(m, m.regions, c);
    var re, pe := Locate(m, m.regions, e);
    DetectOf(m, wss[0], c, x, Sof, c, rs, ps);
    DetectOf(m, wss[n], 0, 0, Eof, e, re, pe);
    HeadDiffers(m, wss[0], c, x, words[n]);
    var fs, fe := Detect(m, words[0], Sof), Detect(m, words[n], Eof);
    PiecesUpTo(m, words, wss, c, x, fs, fe, n);
    ImageLast(m, words, wss, c, x, fs, fe, e, pe);
  }

  // ---------------------------------------------------------------- parser facts

  function NextMark(ws: seq<Slot>, mark: Mark, c: nat): (o: Option<nat>)
    ensures o.Some? ==> IsNext(ws, mark, c, o.value)
    ensures o.None? ==> NoneFrom(ws, mark, c)
    decreases |ws| - c
  {
    if c >= |ws| then None
    else if ws[c].Has(mark) then Some(c)
    else NextMark(ws, mark, c + 1)
  }

  // The progress after the first i slots of a word.
  function ParseTo(m: Mfb, p: Progress, ws: seq<Slot>, i: nat): Progress
    requires ValidSlots(m, ws) && i <= |ws|
  {
    Parse(m, p, ws[..i])
  }

  lemma ParseEnds(m: Mfb, p: Progress, ws: seq<Slot>)
    requires ValidSlots(m, ws)
    ensures ParseTo(m, p, ws, 0) == p && ParseTo(m, p, ws, |ws|) == Parse(m, p, ws)
  {
    assert ws[..0] == [] && ws[..|ws|] == ws;
  }

  lemma ParseNext(m: Mfb, p: Progress, ws: seq<Slot>, i: nat)
    requires ValidSlots(m, ws) && i < |ws|
    ensures ParseTo(m, p, ws, i + 1) == Step(ParseTo(m, p, ws, i), ws[i])
  {
    assert ws[..i + 1][..i] == ws[..i];
  }

  // With no frame open and no start in between, nothing happens.
  lemma {:induction false} StillClosed(m: Mfb, p: Progress, ws: seq<Slot>, a: nat, b: nat)
    requires ValidSlots(m, ws) && a <= b <= |ws|
    requires ParseTo(m, p, ws, a).open.None? && forall i :: a <= i < b ==> !ws[i].sof
    ensures ParseTo(m, p, ws, b) == ParseTo(m, p, ws, a)
    decreases b
  {
    if a < b {
      StillClosed(m, p, ws, a, b - 1);
      ParseNext(m, p, ws, b - 1);
    }
  }

  // While no end passes, an open frame collects every byte and nothing else starts.
  lemma {:induction false} StillOpen(m: Mfb, p: Progress, ws: seq<Slot>, a: nat, b: nat)
    requires ValidSlots(m, ws) && Alternating(m, p, ws) && a <= b <= |ws|
    requires ParseTo(m, p, ws, a).open.Some? && forall i :: a <= i < b ==> !ws[i].eof
    ensures ParseTo(m, p, ws, b)
         == Progress(Some(ParseTo(m, p, ws, a).open.value + Flat(ws[a..b])), ParseTo(m, p, ws, a).frames)
    ensures forall i :: a <= i < b ==> !ws[i].sof
    decreases b
  {
    if a < b {
      StillOpen(m, p, ws, a, b - 1);
      ParseNext(m, p, ws, b - 1);
      assert ws[a..b][..b - 1 - a] == ws[a..b - 1];
      var x := ParseTo(m, p, ws, a).open.value;
      assert (x + Flat(ws[a..b - 1])) + ws[b - 1].data == x + (Flat(ws[a..b - 1]) + ws[b - 1].data);
    } else {
      var bytes := ParseTo(m, p, ws, a).open.value;
      assert bytes + Flat(ws[a..a]) == bytes;
    }
  }

  // A frame open at the first slot of a word and ending in slot e of it.
  lemma ParseCarried(m: Mfb, p: Progress, ws: seq<Slot>, e: nat)
    requires ValidSlots(m, ws) && Alternating(m, p, ws) && p.open.Some? && IsNext(ws, Eof, 0, e)
    ensures ParseTo(m, p, ws, e + 1) == Progress(None, p.frames + [p.open.value + FrameBytes(ws, 0, e)])
    ensures forall i :: 0 <= i <= e ==> !ws[i].sof
  {
    assert ws[..0] == [];
    StillOpen(m, p, ws, 0, e);
    ParseNext(m, p, ws, e);
    var d := ws[e].data[..ws[e].last + 1];
    assert p.open.value + Flat(ws[0..e]) + d == p.open.value + (Flat(ws[0..e]) + d);
  }

  lemma OneSlot(ws: seq<Slot>, s: nat)
    requires s < |ws|
    ensures Flat(ws[s..s + 1]) == ws[s].data
  {
    assert ws[s..s + 1][..0] == [];
    assert [] + ws[s].data == ws[s].data;
  }

  lemma FlatJoin(st: seq<Slot>, a: nat, b: nat, c: nat)
    requires a <= b <= c <= |st|
    ensures Flat(st[a..b]) + Flat(st[b..c]) == Flat(st[a..c])
  {
    assert st[a..b] + st[b..c] == st[a..c];
    FlatAppend(st[a..b], st[b..c]);
  }

  // A frame that starts in slot s and has not ended before slot b.
  lemma Opens(m: Mfb, p: Progress, ws: seq<Slot>, s: nat, b: nat)
    requires ValidSlots(m, ws) && Alternating(m, p, ws) && s < b <= |ws| && ws[s].sof
    requires forall i :: s <= i < b ==> !ws[i].eof
    ensures ParseTo(m, p, ws, b) == Progress(Some(Flat(ws[s..b])), ParseTo(m, p, ws, s).frames)
    ensures forall i :: s < i < b ==> !ws[i].sof
  {
    ParseNext(m, p, ws, s);
    assert [] + ws[s].data == ws[s].data;
    StillOpen(m, p, ws, s + 1, b);
    FlatJoin(ws, s, s + 1, b);
    OneSlot(ws, s);
  }

  // After a quiet point, a frame that ends has started.
  lemma StartBeforeEnd(m: Mfb, p: Progress, ws: seq<Slot>, c: nat, e: nat) returns (s: nat)
    requires ValidSlots(m, ws) && Alternating(m, p, ws) && c <= |ws|
    requires ParseTo(m, p, ws, c).open.None? && IsNext(ws, Eof, c, e)
    ensures IsNext(ws, Sof, c, s) && s <= e
    ensures ParseTo(m, p, ws, s) == ParseTo(m, p, ws, c)
  {
    var o := NextMark(ws, Sof, c);
    if o.None? || o.value > e {
      StillClosed(m, p, ws, c, e);
      assert false;
    }
    s := o.value;
    StillClosed(m, p, ws, c, s);
  }

  // A frame between the first start and the first end after a quiet point c.
  lemma ParseInside(m: Mfb, p: Progress, ws: seq<Slot>, c: nat, e: nat) returns (s: nat)
    requires ValidSlots(m, ws) && Alternating(m, p, ws) && c <= |ws|
    requires ParseTo(m, p, ws, c).open.None? && IsNext(ws, Eof, c, e)
    ensures IsNext(ws, Sof, c, s) && s <= e
    ensures forall i :: s < i <= e ==> !ws[i].sof
    ensures ParseTo(m, p, ws, e + 1) == Progress(None, ParseTo(m, p, ws, c).frames + [FrameBytes(ws, s, e)])
  {
    s := StartBeforeEnd(m, p, ws, c, e);
    ParseNext(m, p, ws, e);
    var d := ws[e].data[..ws[e].last + 1];
    if s < e {
      Opens(m, p, ws, s, e);
      assert !ws[e].sof;
    } else {
      assert [] + d == d && Flat(ws[s..e]) == [];
    }
  }

  // A start after a quiet point opens a frame that runs to the end of the word.
  lemma ParseOpens(m: Mfb, p: Progress, ws: seq<Slot>, c: nat, s: nat)
    requires ValidSlots(m, ws) && Alternating(m, p, ws) && c <= |ws|
    requires ParseTo(m, p, ws, c).open.None? && IsNext(ws, Sof, c, s) && NoneFrom(ws, Eof, c)
    ensures Parse(m, p, ws) == Progress(Some(Flat(ws[s..])), ParseTo(m, p, ws, c).frames)
    ensures forall i :: s < i < |ws| ==> !ws[i].sof
  {
    StillClosed(m, p, ws, c, s);
    Opens(m, p, ws, s, |ws|);
    assert ws[..|ws|] == ws;
    assert ws[s..|ws|] == ws[s..];
  }

  // ---------------------------------------------------------------- after a frame

  lemma SameWord(m: Mfb, ws: seq<Slot>, c: nat, d: nat, ce: nat)
    requires |ws| == m.Slots() && c <= d && forall j :: c <= j < d && j < |ws| ==> !ws[j].sof
    ensures WordOf(m, ws, c, ce) == WordOf(m, ws, d, ce)
  {
    SameFlags(m, ws, Sof, c, d);
  }

  // What the recorder keeps of a word whose slots before c are dealt with.
  function Rest(m: Mfb, ws: seq<Slot>, c: nat): (b: seq<CapturedWord>)
    requires |ws| == m.Slots()
    ensures AllShaped(m, b)
  {
    if NextMark(ws, Sof, c).None? then [] else [WordOf(m, ws, c, c)]
  }

  // A frame inside the last word is dropped with its start and its end, provided it has
  // at least two bytes: the start offset must lie strictly before the end offset.
  lemma InitInside(m: Mfb, words: seq<CapturedWord>, ws: seq<Slot>, c: nat, s: nat, e: nat)
    requires AllShaped(m, words) && words != [] && WordSlots(m, ws) && words[|words| - 1] == WordOf(m, ws, c, c)
    requires IsNext(ws, Sof, c, s) && IsNext(ws, Eof, c, e) && s <= e
    requires forall i :: s < i <= e ==> !ws[i].sof
    requires !OneByte(ws[e])
    ensures InitializeMfb(m, words) == Rest(m, ws, e + 1)
  {
    hide WordOf, Remove, Detect;
    var w := WordOf(m, ws, c, c);
    var rs, ps := Locate(m, m.regions, s);
    var re, pe := Locate(m, m.regions, e);
    DetectOf(m, ws, c, c, Sof, s, rs, ps);
    DetectOf(m, ws, c, c, Eof, e, re, pe);
    ItemOffset(m, e, re, pe, ws[e].last);
    if s < e { TimesMonotone(s + 1, e, m.blockSize); }
    RemoveOf(m, ws, c, c, Sof, s, rs, ps);
    RemoveOf(m, ws, s + 1, c, Eof, e, re, pe);
    SameWord(m, ws, s + 1, e + 1, e + 1);
    var o := NextMark(ws, Sof, e + 1);
    if o.Some? {
      var r, p := Locate(m, m.regions, o.value);
      DetectOf(m, ws, e + 1, e + 1, Sof, o.value, r, p);
    } else {
      DetectNone(m, ws, e + 1, e + 1, Sof);
    }
  }

  // The frame's start is an earlier word: only its end is dropped.
  lemma InitCarried(m: Mfb, words: seq<CapturedWord>, ws: seq<Slot>, e: nat)
    requires AllShaped(m, words) && words != [] && WordSlots(m, ws) && words[|words| - 1] == WordOf(m, ws, 0, 0)
    requires IsNext(ws, Eof, 0, e)
    requires forall i :: 0 <= i <= e ==> !ws[i].sof
    ensures InitializeMfb(m, words) == Rest(m, ws, e + 1)
  {
    hide WordOf, Remove, Detect;
    var re, pe := Locate(m, m.regions, e);
    DetectOf(m, ws, 0, 0, Eof, e, re, pe);
    ItemOffset(m, e, re, pe, ws[e].last);
    var o := NextMark(ws, Sof, e + 1);
    if o.Some? {
      var r, p := Locate(m, m.regions, o.value);
      DetectOf(m, ws, 0, 0, Sof, o.value, r, p);
      TimesMonotone(e + 1, o.value, m.blockSize);
      RemoveOf(m, ws, 0, 0, Eof, e, re, pe);
      SameWord(m, ws, 0, e + 1, e + 1);
    } else {
      DetectNone(m, ws, 0, 0, Sof);
    }
  }

  // A one-byte frame loses its end but keeps its start.
  lemma InitOneByte(m: Mfb, words: seq<CapturedWord>, ws: seq<Slot>, c: nat, e: nat)
    requires AllShaped(m, words) && words != [] && WordSlots(m, ws) && words[|words| - 1] == WordOf(m, ws, c, c)
    requires IsNext(ws, Sof, c, e) && IsNext(ws, Eof, c, e) && OneByte(ws[e])
    ensures InitializeMfb(m, words) == [WordOf(m, ws, e, e + 1)]
  {
    hide WordOf, Remove, Detect;
    var r, p := Locate(m, m.regions, e);
    DetectOf(m, ws, c, c, Sof, e, r, p);
    DetectOf(m, ws, c, c, Eof, e, r, p);
    ItemOffset(m, e, r, p, 0);
    RemoveOf(m, ws, c, c, Eof, e, r, p);
    SameWord(m, ws, c, e, e + 1);
  }

  // ---------------------------------------------------------------- one word through the recorder

  // Buffered words of a frame in progress: it starts in slot c of the first one, in which
  // no end is left from slot x on.
  datatype Pending = Pending(wss: seq<seq<Slot>>, c: nat, x: nat)

  ghost predicate Held(m: Mfb, pend: Pending, bytes: seq<byte>, words: seq<CapturedWord>) {
    && pend.wss != [] && Images(m, words, pend.wss, pend.c, pend.x)
    && WordSlots(m, pend.wss[0]) && IsNext(pend.wss[0], Sof, pend.c, pend.c) && NoneFrom(pend.wss[0], Eof, pend.x)
    && bytes == Flat(Joined(pend.wss, pend.c, |pend.wss|))
  }

  // The buffer holds exactly the words of the open frame.
  ghost predicate Holds(m: Mfb, p: Progress, words: seq<CapturedWord>) {
    match p.open
    case None => words == []
    case Some(bytes) => exists pend :: Held(m, pend, bytes, words)
  }

  // One-byte frames are harmless only as the very last frame of the stream.
  ghost predicate OneByteLast(ws: seq<Slot>, more: bool) {
    forall e :: 0 <= e < |ws| && OneByte(ws[e]) ==> !more && NoneFrom(ws, Eof, e + 1)
  }

  lemma DrainStep(m: Mfb, words: seq<CapturedWord>, packets: seq<seq<byte>>, frame: seq<byte>)
    requires m.Valid() && AllShaped(m, words) && DecodePacket(m, words) == Success(Some(frame))
    ensures words != []
    ensures Drain(m, State(words, packets)) == Drain(m, State(InitializeMfb(m, words), packets + [frame]))
  {
    hide Piece, Detect, InitializeMfb;
    DecodeDrops(m, words);
  }

  lemma DrainStop(m: Mfb, words: seq<CapturedWord>, packets: seq<seq<byte>>)
    requires m.Valid() && AllShaped(m, words)
    requires words == [] || !Detect(m, words[|words| - 1], Eof).detected
    ensures Drain(m, State(words, packets)) == Success(State(words, packets))
  {
    hide Detect, InitializeMfb;
  }

  lemma {:induction false} NoMoreFrames(m: Mfb, p: Progress, ws: seq<Slot>, a: nat, b: nat)
    requires ValidSlots(m, ws) && a <= b <= |ws| && NoneFrom(ws, Eof, a)
    ensures ParseTo(m, p, ws, b).frames == ParseTo(m, p, ws, a).frames
    decreases b
  {
    if a < b {
      NoMoreFrames(m, p, ws, a, b - 1);
      ParseNext(m, p, ws, b - 1);
    }
  }

  // A single buffered word whose first start is in slot c.
  lemma HeldAlone(m: Mfb, ws: seq<Slot>, c: nat, x: nat)
    requires WordSlots(m, ws) && IsNext(ws, Sof, c, c) && NoneFrom(ws, Eof, x)
    ensures Held(m, Pending([ws], c, x), Flat(ws[c..]), [WordOf(m, ws, c, x)])
  {
    hide WordOf, SingleMarks;
    assert Joined([ws], c, 0) == [];
    assert Joined([ws], c, 1) == ws[c..];
  }

  // A start with no end behind it: the word stays buffered.
  lemma QuietOpens(m: Mfb, p: Progress, ws: seq<Slot>, c: nat, s: nat)
    requires WordSlots(m, ws) && Alternating(m, p, ws) && c <= |ws| && ParseTo(m, p, ws, c).open.None?
    requires IsNext(ws, Sof, c, s) && NoneFrom(ws, Eof, c)
    ensures Parse(m, p, ws).frames == ParseTo(m, p, ws, c).frames
    ensures Holds(m, Parse(m, p, ws), [WordOf(m, ws, c, c)])
  {
    hide SingleMarks, Flat, Parse, Held, Flags;
    ParseOpens(m, p, ws, c, s);
    SameFlags(m, ws, Sof, c, s);
    SameFlags(m, ws, Eof, c, s);
    HeldAlone(m, ws, s, s);
  }

  lemma HoldsNothing(m: Mfb, p: Progress)
    requires p.open.None?
    ensures Holds(m, p, [])
  {
  }

  // From a point c of the word where no frame is open.
  lemma {:induction false} DrainQuiet(m: Mfb, p: Progress, ws: seq<Slot>, c: nat, more: bool) returns (r: State)
    requires WordSlots(m, ws) && Alternating(m, p, ws) && c <= |ws| && ParseTo(m, p, ws, c).open.None?
    requires OneByteLast(ws, more)
    ensures Drain(m, State(Rest(m, ws, c), ParseTo(m, p, ws, c).frames)) == Success(r)
    ensures r.packets == Parse(m, p, ws).frames
    ensures Holds(m, Parse(m, p, ws), r.words) || !more
    decreases |ws| - c
  {
    hide WordOf, Detect, InitializeMfb, Drain, SingleMarks, Holds;
    var frames := ParseTo(m, p, ws, c).frames;
    var words := Rest(m, ws, c);
    var o, q := NextMark(ws, Eof, c), NextMark(ws, Sof, c);
    if o.None? {
      if q.Some? {
        DetectNone(m, ws, c, c, Eof);
        QuietOpens(m, p, ws, c, q.value);
      } else {
        StillClosed(m, p, ws, c, |ws|);
        assert ws[..|ws|] == ws;
        HoldsNothing(m, Parse(m, p, ws));
      }
      DrainStop(m, words, frames);
      r := State(words, frames);
    } else {
      var e := o.value;
      var s := ParseInside(m, p, ws, c, e);
      DecodeOne(m, ws, c, c, s, e);
      DrainStep(m, words, frames, FrameBytes(ws, s, e));
      if OneByte(ws[e]) {
        InitOneByte(m, words, ws, c, e);
        NoMoreFrames(m, p, ws, e + 1, |ws|);
        assert ws[..|ws|] == ws;
        DetectNone(m, ws, e, e + 1, Eof);
        r := State([WordOf(m, ws, e, e + 1)], frames + [FrameBytes(ws, s, e)]);
        DrainStop(m, r.words, r.packets);
      } else {
        InitInside(m, words, ws, c, s, e);
        r := DrainQuiet(m, p, ws, e + 1, more);
      }
    }
  }

  lemma {:induction false} JoinedPrefix(wss: seq<seq<Slot>>, ws: seq<Slot>, c: nat, n: nat)
    requires n <= |wss| && c <= |ws| && forall i :: 0 <= i < |wss| ==> c <= |wss[i]|
    ensures Joined(wss + [ws], c, n) == Joined(wss, c, n)
    decreases n
  {
    if n > 0 { JoinedPrefix(wss, ws, c, n - 1); }
  }

  lemma JoinedNext(wss: seq<seq<Slot>>, ws: seq<Slot>, c: nat)
    requires wss != [] && c <= |ws| && forall i :: 0 <= i < |wss| ==> c <= |wss[i]|
    ensures Flat(Joined(wss + [ws], c, |wss| + 1)) == Flat(Joined(wss, c, |wss|)) + Flat(ws)
  {
    JoinedPrefix(wss, ws, c, |wss|);
    assert ws[0..] == ws;
    FlatAppend(Joined(wss, c, |wss|), ws);
  }

  ghost predicate Carries(m: Mfb, p: Progress, ws: seq<Slot>, pend: Pending, words: seq<CapturedWord>) {
    WordSlots(m, ws) && Alternating(m, p, ws) && p.open.Some? && Held(m, pend, p.open.value, words)
  }

  lemma HeldShaped(m: Mfb, pend: Pending, bytes: seq<byte>, words: seq<CapturedWord>)
    requires Held(m, pend, bytes, words)
    ensures AllShaped(m, words)
  {
    hide WordOf, Joined, SingleMarks;
  }

  lemma HeldNext(m: Mfb, pend: Pending, bytes: seq<byte>, words: seq<CapturedWord>, ws: seq<Slot>)
    requires Held(m, pend, bytes, words) && FullWord(m, ws)
    ensures Held(m, Pending(pend.wss + [ws], pend.c, pend.x), bytes + Flat(ws), words + [WordOf(m, ws, 0, 0)])
  {
    hide WordOf, Joined, Flat, SingleMarks;
    JoinedNext(pend.wss, ws, pend.c);
    var wss := pend.wss + [ws];
    assert wss[0] == pend.wss[0];
    assert |wss| == |pend.wss| + 1;
  }

  // The frame in progress runs through the whole word.
  lemma DrainThrough(m: Mfb, p: Progress, ws: seq<Slot>, pend: Pending, words: seq<CapturedWord>)
    requires Carries(m, p, ws, pend, words) && NoneFrom(ws, Eof, 0)
    ensures AllShaped(m, words)
    ensures Drain(m, State(words + [WordOf(m, ws, 0, 0)], p.frames))
      == Success(State(words + [WordOf(m, ws, 0, 0)], p.frames))
    ensures Parse(m, p, ws) == Progress(Some(p.open.value + Flat(ws)), p.frames)
    ensures Holds(m, Parse(m, p, ws), words + [WordOf(m, ws, 0, 0)])
  {
    hide WordOf, Detect, Drain, Held, SingleMarks;
    var all := words + [WordOf(m, ws, 0, 0)];
    HeldShaped(m, pend, p.open.value, words);
    DetectNone(m, ws, 0, 0, Eof);
    DrainStop(m, all, p.frames);
    ParseEnds(m, p, ws);
    assert ws[0..|ws|] == ws;
    StillOpen(m, p, ws, 0, |ws|);
    HeldNext(m, pend, p.open.value, words, ws);
  }

  // The frame in progress ends in slot e of the word.
  lemma DecodeCarried(m: Mfb, p: Progress, ws: seq<Slot>, pend: Pending, words: seq<CapturedWord>, e: nat)
    requires Carries(m, p, ws, pend, words) && IsNext(ws, Eof, 0, e)
    ensures AllShaped(m, words)
    ensures DecodePacket(m, words + [WordOf(m, ws, 0, 0)]) == Success(Some(p.open.value + FrameBytes(ws, 0, e)))
  {
    hide WordOf, Detect, DecodePacket;
    DecodeImages(m, words + [WordOf(m, ws, 0, 0)], pend.wss + [ws], pend.c, pend.x, e);
    JoinedPrefix(pend.wss, ws, pend.c, |pend.wss|);
  }

  // The next word of a frame in progress, and the rest of that word.
  lemma DrainCarried(m: Mfb, p: Progress, ws: seq<Slot>, pend: Pending, words: seq<CapturedWord>, more: bool)
    returns (r: State)
    requires Carries(m, p, ws, pend, words) && OneByteLast(ws, more)
    ensures AllShaped(m, words)
    ensures Drain(m, State(words + [WordOf(m, ws, 0, 0)], p.frames)) == Success(r)
    ensures r.packets == Parse(m, p, ws).frames
    ensures Holds(m, Parse(m, p, ws), r.words) || !more
  {
    hide WordOf, Detect, InitializeMfb, Drain, DecodePacket, Held, Holds;
    var all := words + [WordOf(m, ws, 0, 0)];
    var o := NextMark(ws, Eof, 0);
    if o.None? {
      DrainThrough(m, p, ws, pend, words);
      r := State(all, p.frames);
    } else {
      var e := o.value;
      DecodeCarried(m, p, ws, pend, words, e);
      ParseCarried(m, p, ws, e);
      DrainStep(m, all, p.frames, p.open.value + FrameBytes(ws, 0, e));
      InitCarried(m, all, ws, e);
      r := DrainQuiet(m, p, ws, e + 1, more);
    }
  }

  // ---------------------------------------------------------------- whole streams

  ghost predicate AllValid(m: Mfb, wss: seq<seq<Slot>>) {
    forall k :: 0 <= k < |wss| ==> ValidSlots(m, wss[k])
  }

  // Progress after the first n words.
  function ParseWords(m: Mfb, wss: seq<seq<Slot>>, n: nat): Progress
    requires n <= |wss| && AllValid(m, wss)
  {
    if n == 0 then START else Parse(m, ParseWords(m, wss, n - 1), wss[n - 1])
  }

  // Words that follow the bus rules: starts and ends alternate, and no region of a word
  // holds two starts or two ends.
  ghost predicate Conforming(m: Mfb, wss: seq<seq<Slot>>) {
    && m.Valid() && AllValid(m, wss)
    && (forall k :: 0 <= k < |wss| ==> WordSlots(m, wss[k]))
    && (forall k :: 0 <= k < |wss| ==> Alternating(m, ParseWords(m, wss, k), wss[k]))
  }

  // A word with nothing to say: no frame is open at its first slot and none starts in it.
  ghost predicate IdleAt(m: Mfb, wss: seq<seq<Slot>>, k: nat)
    requires AllValid(m, wss) && k < |wss|
  {
    ParseWords(m, wss, k).open.None? && NextMark(wss[k], Sof, 0).None?
  }

  ghost predicate NoIdleWord(m: Mfb, wss: seq<seq<Slot>>)
    requires AllValid(m, wss)
  {
    forall k :: 0 <= k < |wss| ==> !IdleAt(m, wss, k)
  }

  ghost predicate NoEndFrom(wss: seq<seq<Slot>>, n: nat) {
    forall k :: n <= k < |wss| ==> NoneFrom(wss[k], Eof, 0)
  }

  // No one-byte frame that ends in the first n words is followed by another end of frame.
  ghost predicate OneByteOnlyLast(wss: seq<seq<Slot>>, n: nat)
    requires n <= |wss|
  {
    forall k :: 0 <= k < n ==> OneByteLast(wss[k], !NoEndFrom(wss, k + 1))
  }

  // No idle word among the first n has an end of frame behind it.
  ghost predicate IdleOnlyLast(m: Mfb, wss: seq<seq<Slot>>, n: nat)
    requires AllValid(m, wss) && n <= |wss|
  {
    forall k :: 0 <= k < n && IdleAt(m, wss, k) ==> NoEndFrom(wss, k + 1)
  }

  // The register images the bus delivers for these words.
  function Encoded(m: Mfb, wss: seq<seq<Slot>>): (bws: seq<BusWord>)
    ensures |bws| == |wss| && forall k :: 0 <= k < |wss| ==> bws[k] == Encode(m, wss[k], Flat(wss[k]))
  {
    seq(|wss|, k requires 0 <= k < |wss| => Encode(m, wss[k], Flat(wss[k])))
  }

  // What the recorder needs to know of a word that comes after the progress p.
  ghost predicate GoodWord(m: Mfb, p: Progress, ws: seq<Slot>, more: bool) {
    && WordSlots(m, ws) && Alternating(m, p, ws) && OneByteLast(ws, more)
    && (p.open.Some? || NextMark(ws, Sof, 0).Some?)
  }

  // An idle word holds no end of frame.
  lemma IdleNoEnd(m: Mfb, wss: seq<seq<Slot>>, k: nat)
    requires Conforming(m, wss) && k < |wss| && IdleAt(m, wss, k)
    ensures NoneFrom(wss[k], Eof, 0)
  {
    hide ParseWords, SingleMarks, Parse;
    var p, ws := ParseWords(m, wss, k), wss[k];
    var o := NextMark(ws, Eof, 0);
    if o.Some? {
      ParseEnds(m, p, ws);
      var s := StartBeforeEnd(m, p, ws, 0, o.value);
      assert false;
    }
  }

  // A word with an end of frame in it or behind it is a good one.
  lemma GoodWordAt(m: Mfb, wss: seq<seq<Slot>>, k: nat)
    requires Conforming(m, wss) && k < |wss| && OneByteOnlyLast(wss, k + 1) && IdleOnlyLast(m, wss, k + 1)
    requires !NoEndFrom(wss, k)
    ensures GoodWord(m, ParseWords(m, wss, k), wss[k], !NoEndFrom(wss, k + 1))
  {
    hide ParseWords, SingleMarks;
    if IdleAt(m, wss, k) { IdleNoEnd(m, wss, k); }
  }

  // One word, from any point of a conforming stream.
  lemma FeedWord(m: Mfb, p: Progress, ws: seq<Slot>, st: State, more: bool) returns (r: State)
    requires GoodWord(m, p, ws, more)
    requires AllShaped(m, st.words) && Holds(m, p, st.words) && st.packets == p.frames
    ensures AllShaped(m, r.words) && Feed(m, st, Encode(m, ws, Flat(ws))) == Success(r)
    ensures r.packets == Parse(m, p, ws).frames
    ensures Holds(m, Parse(m, p, ws), r.words) || !more
  {
    hide WordOf, Drain, Held;
    CaptureEncode(m, ws);
    if p.open.Some? {
      var pend :| Held(m, pend, p.open.value, st.words);
      r := DrainCarried(m, p, ws, pend, st.words, more);
    } else {
      assert ws[..0] == [];
      assert [] + [WordOf(m, ws, 0, 0)] == Rest(m, ws, 0);
      r := DrainQuiet(m, p, ws, 0, more);
    }
  }

  // A word without an end completes no frame.
  lemma FeedNoEnd(m: Mfb, p: Progress, ws: seq<Slot>, st: State)
    requires WordSlots(m, ws) && NoneFrom(ws, Eof, 0) && AllShaped(m, st.words)
    ensures Feed(m, st, Encode(m, ws, Flat(ws))) == Success(State(st.words + [WordOf(m, ws, 0, 0)], st.packets))
    ensures Parse(m, p, ws).frames == p.frames
  {
    hide WordOf, Drain;
    CaptureEncode(m, ws);
    DetectNone(m, ws, 0, 0, Eof);
    DrainStop(m, st.words + [WordOf(m, ws, 0, 0)], st.packets);
    NoMoreFrames(m, p, ws, 0, |ws|);
    ParseEnds(m, p, ws);
  }

  lemma RunStep(m: Mfb, bws: seq<BusWord>, n: nat, st: State)
    requires m.Valid() && n < |bws| && AllShaped(m, st.words) && Run(m, bws, n) == Success(st)
    ensures Run(m, bws, n + 1) == Feed(m, st, bws[n])
  {
    hide Feed;
  }

  lemma ParseWordsStep(m: Mfb, wss: seq<seq<Slot>>, n: nat)
    requires AllValid(m, wss) && n < |wss|
    ensures ParseWords(m, wss, n + 1) == Parse(m, ParseWords(m, wss, n), wss[n])
  {
  }

  lemma {:induction false} RunUpTo(m: Mfb, wss: seq<seq<Slot>>, n: nat) returns (r: State)
    requires Conforming(m, wss) && n <= |wss| && OneByteOnlyLast(wss, n) && IdleOnlyLast(m, wss, n)
    ensures AllShaped(m, r.words) && Run(m, Encoded(m, wss), n) == Success(r)
    ensures r.packets == ParseWords(m, wss, n).frames
    ensures Holds(m, ParseWords(m, wss, n), r.words) || NoEndFrom(wss, n)
    decreases n
  {
    hide Feed, Held, ParseWords, Parse, Run, WordOf, Encode, IdleAt;
    if n == 0 {
      r := RunStart(m, wss);
    } else {
      var st := RunUpTo(m, wss, n - 1);
      var p := ParseWords(m, wss, n - 1);
      RunStep(m, Encoded(m, wss), n - 1, st);
      ParseWordsStep(m, wss, n - 1);
      if NoEndFrom(wss, n - 1) {
        FeedNoEnd(m, p, wss[n - 1], st);
        r := State(st.words + [WordOf(m, wss[n - 1], 0, 0)], st.packets);
      } else {
        GoodWordAt(m, wss, n - 1);
        r := FeedWord(m, p, wss[n - 1], st, !NoEndFrom(wss, n));
      }
    }
  }

  lemma RunStart(m: Mfb, wss: seq<seq<Slot>>) returns (r: State)
    requires m.Valid() && AllValid(m, wss)
    ensures AllShaped(m, r.words) && Run(m, Encoded(m, wss), 0) == Success(r)
    ensures r.packets == ParseWords(m, wss, 0).frames && Holds(m, ParseWords(m, wss, 0), r.words)
  {
    r := State([], []);
  }
}
