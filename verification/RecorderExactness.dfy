// When the recorder is exact. A one-byte frame is decoded, but the comparison of offsets
// then keeps its start flag, and the next frame is captured from that stale start.
module RecorderExactness {
  import opened Numbers
  import opened Options
  import opened MfbStream
  import opened FrameRecorder
  import opened CapturedWords
  import opened RecorderStream

  // ---------------------------------------------------------------- captured frames are final

  ghost predicate Extends(xs: seq<seq<byte>>, ys: seq<seq<byte>>) {
    |xs| <= |ys| && ys[..|xs|] == xs
  }

  lemma {:induction false} DrainExtends(m: Mfb, st: State)
    requires m.Valid() && AllShaped(m, st.words)
    ensures Drain(m, st).Success? ==> Extends(st.packets, Drain(m, st).value.packets)
    decreases Weight(st.words)
  {
    hide Piece, Detect, InitializeMfb, Weight;
    var d := DecodePacket(m, st.words);
    if d.Success? && d.value.Some? {
      DecodeDrops(m, st.words);
      DrainStep(m, st.words, st.packets, d.value.value);
      DrainExtends(m, State(InitializeMfb(m, st.words), st.packets + [d.value.value]));
    }
  }

  lemma {:induction false} ParseExtends(m: Mfb, p: Progress, st: seq<Slot>)
    requires ValidSlots(m, st)
    ensures Extends(p.frames, Parse(m, p, st).frames)
  {
    if st != [] { ParseExtends(m, p, st[..|st| - 1]); }
  }

  // The capture has failed, or some captured frame has not the length of the one the stream
  // carries.
  ghost predicate Diverged(p: Progress, r: Result<State>) {
    r.Failure? || exists i :: 0 <= i < |p.frames| && i < |r.value.packets| && |r.value.packets[i]| != |p.frames[i]|
  }

  lemma DivergedExtends(p: Progress, st: State, q: Progress, r: State)
    requires Diverged(p, Success(st)) && Extends(p.frames, q.frames) && Extends(st.packets, r.packets)
    ensures Diverged(q, Success(r))
  {
    var i :| 0 <= i < |p.frames| && i < |st.packets| && |st.packets[i]| != |p.frames[i]|;
    assert q.frames[i] == q.frames[..|p.frames|][i];
    assert r.packets[i] == r.packets[..|st.packets|][i];
  }

  lemma DivergedFeed(m: Mfb, p: Progress, ws: seq<Slot>, st: State, bw: BusWord)
    requires m.Valid() && AllShaped(m, st.words) && ValidSlots(m, ws) && Diverged(p, Success(st))
    ensures Diverged(Parse(m, p, ws), Feed(m, st, bw))
  {
    hide Drain, Capture, Diverged, Extends;
    var s := State(st.words + [Capture(m, bw)], st.packets);
    DrainExtends(m, s);
    ParseExtends(m, p, ws);
    if Drain(m, s).Success? {
      DivergedExtends(p, st, Parse(m, p, ws), Drain(m, s).value);
    } else {
      FailureDiverges(Parse(m, p, ws), Drain(m, s));
    }
  }

  lemma FailureDiverges(p: Progress, r: Result<State>)
    requires r.Failure?
    ensures Diverged(p, r)
  {
  }

  // ---------------------------------------------------------------- the stale start

  // The buffer starts at a stale start: what it would add to the next frame is longer than
  // what is really open.
  ghost predicate Stale(m: Mfb, p: Progress, words: seq<CapturedWord>) {
    exists pend, bytes :: Held(m, pend, bytes, words) && bytes != [] && (p.open.Some? ==> |p.open.value| < |bytes|)
  }

  // With another end in the word the capture diverges; without one the stale start waits.
  ghost predicate StaleOutcome(m: Mfb, p: Progress, ends: bool, words: seq<CapturedWord>, r: Result<State>) {
    if ends then Diverged(p, r) else r == Success(State(words, p.frames)) && Stale(m, p, words)
  }

  // Decoding a frame of the wrong length makes the capture diverge.
  lemma WrongFrame(m: Mfb, p: Progress, q: Progress, words: seq<CapturedWord>, bad: seq<byte>, good: seq<byte>)
    requires m.Valid() && AllShaped(m, words) && DecodePacket(m, words) == Success(Some(bad))
    requires Extends(p.frames + [good], q.frames) && |bad| != |good|
    ensures Diverged(q, Drain(m, State(words, p.frames)))
  {
    hide DecodePacket, InitializeMfb, Drain;
    DrainStep(m, words, p.frames, bad);
    var s := State(InitializeMfb(m, words), p.frames + [bad]);
    DrainExtends(m, s);
    if Drain(m, s).Success? {
      var i, r := |p.frames|, Drain(m, s).value;
      assert q.frames[i] == q.frames[..i + 1][i] == good;
      assert r.packets[i] == r.packets[..i + 1][i] == bad;
    }
  }

  lemma FrameLength(m: Mfb, ws: seq<Slot>, s: nat, t: nat, e: nat)
    requires ValidSlots(m, ws) && s <= t <= e < |ws| && ws[e].eof
    ensures |FrameBytes(ws, s, e)| == |FrameBytes(ws, t, e)| + m.Bytes(t - s)
  {
    FlatLength(m, ws[s..e]);
    FlatLength(m, ws[t..e]);
    TimesAdd(t - s, e - t, m.blockSize);
  }

  lemma BytesPositive(m: Mfb, n: nat)
    requires m.Valid() && n > 0
    ensures m.Bytes(n) > 0
  {
    TimesMonotone(1, n, m.blockSize);
    assert m.Bytes(1) == m.Bytes(0) + m.blockSize;
  }

  // Up to the first one-byte frame of a word the drain is exact; that frame leaves a stale start.
  lemma {:induction false} DrainToOneByte(m: Mfb, p: Progress, ws: seq<Slot>, c: nat, e: nat)
    requires WordSlots(m, ws) && Alternating(m, p, ws) && c <= e < |ws| && ParseTo(m, p, ws, c).open.None?
    requires OneByte(ws[e]) && forall i :: c <= i < e ==> !OneByte(ws[i])
    ensures Drain(m, State(Rest(m, ws, c), ParseTo(m, p, ws, c).frames))
         == Drain(m, State([WordOf(m, ws, e, e + 1)], ParseTo(m, p, ws, e + 1).frames))
    ensures ParseTo(m, p, ws, e + 1).open.None?
    decreases e - c
  {
    hide WordOf, Detect, InitializeMfb, Drain, SingleMarks, Flat, Parse, DecodePacket;
    var f := NextMark(ws, Eof, c).value;
    var s := ParseInside(m, p, ws, c, f);
    DecodeOne(m, ws, c, c, s, f);
    DrainStep(m, Rest(m, ws, c), ParseTo(m, p, ws, c).frames, FrameBytes(ws, s, f));
    if f == e {
      assert s == e;
      InitOneByte(m, Rest(m, ws, c), ws, c, e);
    } else {
      InitInside(m, Rest(m, ws, c), ws, c, s, f);
      DrainToOneByte(m, p, ws, f + 1, e);
    }
  }

  // In the word of the one-byte frame another end makes the capture diverge.
  lemma OneByteThenEnd(m: Mfb, p: Progress, ws: seq<Slot>, e: nat, f: nat)
    requires WordSlots(m, ws) && Alternating(m, p, ws) && e < |ws| && OneByte(ws[e])
    requires ParseTo(m, p, ws, e + 1).open.None? && IsNext(ws, Eof, e + 1, f)
    ensures Diverged(Parse(m, p, ws), Drain(m, State([WordOf(m, ws, e, e + 1)], ParseTo(m, p, ws, e + 1).frames)))
  {
    hide WordOf, Drain, DecodePacket, SingleMarks, Diverged, Flat;
    var s := ParseInside(m, p, ws, e + 1, f);
    DecodeOne(m, ws, e, e + 1, e, f);
    FrameLength(m, ws, e, s, f);
    BytesPositive(m, s - e);
    RestExtends(m, p, ws, f + 1);
    WrongFrame(m, ParseTo(m, p, ws, e + 1), Parse(m, p, ws), [WordOf(m, ws, e, e + 1)], FrameBytes(ws, e, f),
      FrameBytes(ws, s, f));
  }

  lemma RestExtends(m: Mfb, p: Progress, ws: seq<Slot>, i: nat)
    requires ValidSlots(m, ws) && i <= |ws|
    ensures Extends(ParseTo(m, p, ws, i).frames, Parse(m, p, ws).frames)
  {
    hide Parse;
    assert ws[..i] + ws[i..] == ws;
    ParseAppend(m, p, ws[..i], ws[i..]);
    ParseExtends(m, ParseTo(m, p, ws, i), ws[i..]);
  }

  // With no other end in that word the stale start stays in the buffer.
  lemma AfterOneByte(m: Mfb, p: Progress, ws: seq<Slot>, e: nat)
    requires WordSlots(m, ws) && Alternating(m, p, ws) && e < |ws| && OneByte(ws[e])
    requires ParseTo(m, p, ws, e + 1).open.None?
    ensures StaleOutcome(m, Parse(m, p, ws), NextMark(ws, Eof, e + 1).Some?, [WordOf(m, ws, e, e + 1)],
              Drain(m, State([WordOf(m, ws, e, e + 1)], ParseTo(m, p, ws, e + 1).frames)))
  {
    hide WordOf, Detect, Drain, SingleMarks, Diverged, Stale, Parse;
    var o := NextMark(ws, Eof, e + 1);
    if o.Some? {
      OneByteThenEnd(m, p, ws, e, o.value);
    } else {
      DetectNone(m, ws, e, e + 1, Eof);
      DrainStop(m, [WordOf(m, ws, e, e + 1)], ParseTo(m, p, ws, e + 1).frames);
      NoMoreFrames(m, p, ws, e + 1, |ws|);
      assert ws[..|ws|] == ws;
      StaleStart(m, p, ws, e);
    }
  }

  lemma StaleStart(m: Mfb, p: Progress, ws: seq<Slot>, e: nat)
    requires WordSlots(m, ws) && Alternating(m, p, ws) && e < |ws| && OneByte(ws[e])
    requires ParseTo(m, p, ws, e + 1).open.None? && NoneFrom(ws, Eof, e + 1)
    ensures Stale(m, Parse(m, p, ws), [WordOf(m, ws, e, e + 1)])
  {
    hide WordOf, Held, SingleMarks, Flat, Parse;
    var o := NextMark(ws, Sof, e + 1);
    FlatLength(m, ws[e..]);
    BytesPositive(m, |ws| - e);
    if o.Some? {
      ParseOpens(m, p, ws, e + 1, o.value);
      FlatLength(m, ws[o.value..]);
      TimesAdd(|ws| - o.value, o.value - e, m.blockSize);
      BytesPositive(m, o.value - e);
    } else {
      StillClosed(m, p, ws, e + 1, |ws|);
      assert ws[..|ws|] == ws;
    }
    HeldAlone(m, ws, e, e + 1);
  }

  // A later word: an end makes the capture diverge, otherwise the start stays stale.
  lemma StaleFeed(m: Mfb, p: Progress, ws: seq<Slot>, st: State)
    requires WordSlots(m, ws) && Alternating(m, p, ws) && AllShaped(m, st.words)
    requires Stale(m, p, st.words) && st.packets == p.frames
    ensures StaleOutcome(m, Parse(m, p, ws), NextMark(ws, Eof, 0).Some?, st.words + [WordOf(m, ws, 0, 0)],
              Feed(m, st, Encode(m, ws, Flat(ws))))
  {
    hide WordOf, Drain, Held, DecodePacket, Diverged, Extends;
    CaptureEncode(m, ws);
    var pend, bytes :| Held(m, pend, bytes, st.words) && bytes != [] && (p.open.Some? ==> |p.open.value| < |bytes|);
    var all := st.words + [WordOf(m, ws, 0, 0)];
    var o := NextMark(ws, Eof, 0);
    if o.Some? {
      var e := o.value;
      StaleDecode(m, p, ws, pend, bytes, st.words, e);
      var good := StaleGood(m, p, ws, bytes, e);
      WrongFrame(m, p, Parse(m, p, ws), all, bytes + FrameBytes(ws, 0, e), good);
    } else {
      FeedNoEnd(m, p, ws, st);
      StaleThrough(m, p, ws, pend, bytes, st.words);
    }
  }

  lemma StaleDecode(m: Mfb, p: Progress, ws: seq<Slot>, pend: Pending, bytes: seq<byte>,
      words: seq<CapturedWord>, e: nat)
    requires WordSlots(m, ws) && Held(m, pend, bytes, words) && IsNext(ws, Eof, 0, e)
    ensures AllShaped(m, words)
    ensures DecodePacket(m, words + [WordOf(m, ws, 0, 0)]) == Success(Some(bytes + FrameBytes(ws, 0, e)))
  {
    hide WordOf, DecodePacket;
    DecodeImages(m, words + [WordOf(m, ws, 0, 0)], pend.wss + [ws], pend.c, pend.x, e);
    JoinedPrefix(pend.wss, ws, pend.c, |pend.wss|);
  }

  // The frame that really ends first in this word is shorter than the stale capture.
  lemma StaleGood(m: Mfb, p: Progress, ws: seq<Slot>, bytes: seq<byte>, e: nat) returns (good: seq<byte>)
    requires WordSlots(m, ws) && Alternating(m, p, ws) && IsNext(ws, Eof, 0, e)
    requires bytes != [] && (p.open.Some? ==> |p.open.value| < |bytes|)
    ensures Extends(p.frames + [good], Parse(m, p, ws).frames) && |good| < |bytes + FrameBytes(ws, 0, e)|
  {
    if p.open.Some? {
      ParseCarried(m, p, ws, e);
      good := p.open.value + FrameBytes(ws, 0, e);
    } else {
      assert ws[..0] == [];
      var s := ParseInside(m, p, ws, 0, e);
      good := FrameBytes(ws, s, e);
      FrameLength(m, ws, 0, s, e);
    }
    RestExtends(m, p, ws, e + 1);
  }

  lemma StaleThrough(m: Mfb, p: Progress, ws: seq<Slot>, pend: Pending, bytes: seq<byte>, words: seq<CapturedWord>)
    requires WordSlots(m, ws) && Alternating(m, p, ws) && NoneFrom(ws, Eof, 0) && Held(m, pend, bytes, words)
    requires bytes != [] && (p.open.Some? ==> |p.open.value| < |bytes|)
    ensures Stale(m, Parse(m, p, ws), words + [WordOf(m, ws, 0, 0)])
  {
    hide WordOf, Held, Flat, Parse, SingleMarks;
    HeldNext(m, pend, bytes, words, ws);
    ParseEnds(m, p, ws);
    assert ws[0..|ws|] == ws;
    if p.open.Some? {
      StillOpen(m, p, ws, 0, |ws|);
    } else {
      var o := NextMark(ws, Sof, 0);
      if o.Some? {
        ParseOpens(m, p, ws, 0, o.value);
        FlatLength(m, ws[o.value..]);
        FlatLength(m, ws);
        TimesMonotone(|ws| - o.value, |ws|, m.blockSize);
      } else {
        StillClosed(m, p, ws, 0, |ws|);
      }
    }
    assert bytes + Flat(ws) != [];
  }

  // ---------------------------------------------------------------- one-byte frames

  // Up to the first one-byte frame of a word that continues a frame.
  lemma CarriedToOneByte(m: Mfb, p: Progress, ws: seq<Slot>, pend: Pending, words: seq<CapturedWord>, e: nat)
    requires Carries(m, p, ws, pend, words) && e < |ws| && OneByte(ws[e])
    requires forall i :: 0 <= i < e ==> !OneByte(ws[i])
    ensures AllShaped(m, words)
    ensures ParseTo(m, p, ws, e + 1).open.None?
    ensures Drain(m, State(words + [WordOf(m, ws, 0, 0)], p.frames))
         == Drain(m, State([WordOf(m, ws, e, e + 1)], ParseTo(m, p, ws, e + 1).frames))
  {
    hide WordOf, Drain, Held, DecodePacket, InitializeMfb, SingleMarks;
    var f := NextMark(ws, Eof, 0).value;
    var all := words + [WordOf(m, ws, 0, 0)];
    DecodeCarried(m, p, ws, pend, words, f);
    ParseCarried(m, p, ws, f);
    DrainStep(m, all, p.frames, p.open.value + FrameBytes(ws, 0, f));
    InitCarried(m, all, ws, f);
    DrainToOneByte(m, p, ws, f + 1, e);
  }

  // Up to the first one-byte frame of a word that begins with no open frame.
  lemma QuietToOneByte(m: Mfb, p: Progress, ws: seq<Slot>, e: nat)
    requires WordSlots(m, ws) && Alternating(m, p, ws) && p.open.None? && e < |ws| && OneByte(ws[e])
    requires forall i :: 0 <= i < e ==> !OneByte(ws[i])
    ensures ParseTo(m, p, ws, e + 1).open.None?
    ensures Drain(m, State([WordOf(m, ws, 0, 0)], p.frames))
         == Drain(m, State([WordOf(m, ws, e, e + 1)], ParseTo(m, p, ws, e + 1).frames))
  {
    hide WordOf, Drain, SingleMarks;
    assert ws[..0] == [];
    assert NextMark(ws, Sof, 0).Some?;
    DrainToOneByte(m, p, ws, 0, e);
  }

  // The word with the first one-byte frame of the stream that is not the last frame.
  lemma FeedOneByte(m: Mfb, p: Progress, ws: seq<Slot>, st: State, e: nat)
    requires WordSlots(m, ws) && Alternating(m, p, ws) && e < |ws| && OneByte(ws[e])
    requires forall i :: 0 <= i < e ==> !OneByte(ws[i])
    requires AllShaped(m, st.words) && Holds(m, p, st.words) && st.packets == p.frames
    ensures StaleOutcome(m, Parse(m, p, ws), NextMark(ws, Eof, e + 1).Some?, [WordOf(m, ws, e, e + 1)],
              Feed(m, st, Encode(m, ws, Flat(ws))))
  {
    hide WordOf, Drain, Held, StaleOutcome, SingleMarks, Alternating, Parse, Encode, Capture;
    CaptureEncode(m, ws);
    if p.open.Some? {
      var pend :| Held(m, pend, p.open.value, st.words);
      CarriedToOneByte(m, p, ws, pend, st.words, e);
    } else {
      assert [] + [WordOf(m, ws, 0, 0)] == [WordOf(m, ws, 0, 0)];
      QuietToOneByte(m, p, ws, e);
    }
    AfterOneByte(m, p, ws, e);
  }

  // After n words the capture has diverged, or a stale start waits and no end has passed
  // since word k.
  ghost predicate Bad(m: Mfb, wss: seq<seq<Slot>>, k: nat, n: nat)
    requires m.Valid() && AllValid(m, wss) && k < n <= |wss|
  {
    var r := Run(m, Encoded(m, wss), n);
    || Diverged(ParseWords(m, wss, n), r)
    || (r.Success? && r.value.packets == ParseWords(m, wss, n).frames && Stale(m, ParseWords(m, wss, n), r.value.words)
        && forall i :: k < i < n ==> NextMark(wss[i], Eof, 0).None?)
  }

  lemma BadStep(m: Mfb, wss: seq<seq<Slot>>, k: nat, n: nat)
    requires Conforming(m, wss) && k < n < |wss| && Bad(m, wss, k, n)
    ensures Bad(m, wss, k, n + 1)
  {
    hide Feed, Diverged, Stale, ParseWords, Parse, Run, WordOf, Encode, Alternating, SingleMarks;
    var r := Run(m, Encoded(m, wss), n);
    var p := ParseWords(m, wss, n);
    ParseWordsStep(m, wss, n);
    if r.Failure? {
      RunFails(m, Encoded(m, wss), n);
      FailureDiverges(ParseWords(m, wss, n + 1), Run(m, Encoded(m, wss), n + 1));
    } else {
      RunStep(m, Encoded(m, wss), n, r.value);
      if Diverged(p, r) {
        DivergedFeed(m, p, wss[n], r.value, Encoded(m, wss)[n]);
      } else {
        StaleFeed(m, p, wss[n], r.value);
      }
    }
  }

  lemma RunFails(m: Mfb, bws: seq<BusWord>, n: nat)
    requires m.Valid() && n < |bws| && Run(m, bws, n).Failure?
    ensures Run(m, bws, n + 1) == Run(m, bws, n)
  {
  }

  lemma {:induction false} BadUpTo(m: Mfb, wss: seq<seq<Slot>>, k: nat, n: nat)
    requires Conforming(m, wss) && k < n <= |wss| && Bad(m, wss, k, k + 1)
    ensures Bad(m, wss, k, n)
    decreases n
  {
    hide Conforming, Bad;
    if n > k + 1 {
      BadUpTo(m, wss, k, n - 1);
      BadStep(m, wss, k, n - 1);
    }
  }

  lemma BadStart(m: Mfb, wss: seq<seq<Slot>>, k: nat, e: nat)
    requires Conforming(m, wss) && k < |wss| && OneByteOnlyLast(wss, k) && IdleOnlyLast(m, wss, k)
    requires e < |wss[k]| && OneByte(wss[k][e]) && forall i :: 0 <= i < e ==> !OneByte(wss[k][i])
    ensures Bad(m, wss, k, k + 1)
    ensures NextMark(wss[k], Eof, e + 1).Some? ==> Diverged(ParseWords(m, wss, k + 1), Run(m, Encoded(m, wss), k + 1))
  {
    hide Feed, Held, ParseWords, Parse, Run, WordOf, Encode, Diverged, Stale, SingleMarks, IdleAt;
    assert wss[k][e].Has(Eof);
    assert !NoEndFrom(wss, k);
    var st := RunUpTo(m, wss, k);
    RunStep(m, Encoded(m, wss), k, st);
    ParseWordsStep(m, wss, k);
    FeedOneByte(m, ParseWords(m, wss, k), wss[k], st, e);
  }

  // The first word that breaks one of the two conditions.
  lemma {:induction false} FirstBreak(m: Mfb, wss: seq<seq<Slot>>, n: nat) returns (k: nat)
    requires AllValid(m, wss) && n <= |wss| && !(OneByteOnlyLast(wss, n) && IdleOnlyLast(m, wss, n))
    ensures k < n && OneByteOnlyLast(wss, k) && IdleOnlyLast(m, wss, k)
    ensures (IdleAt(m, wss, k) && !NoEndFrom(wss, k + 1)) || !OneByteLast(wss[k], !NoEndFrom(wss, k + 1))
    decreases n
  {
    hide IdleAt, OneByteLast, NoEndFrom;
    if OneByteOnlyLast(wss, n - 1) && IdleOnlyLast(m, wss, n - 1) {
      k := n - 1;
    } else {
      k := FirstBreak(m, wss, n - 1);
    }
  }

  // The first one-byte frame of a word in which some one-byte frame is followed by an end.
  lemma FirstOneByte(ws: seq<Slot>, more: bool) returns (e: nat)
    requires !OneByteLast(ws, more)
    ensures e < |ws| && OneByte(ws[e]) && forall i :: 0 <= i < e ==> !OneByte(ws[i])
    ensures NextMark(ws, Eof, e + 1).Some? || more
  {
    var x :| 0 <= x < |ws| && OneByte(ws[x]) && !(!more && NoneFrom(ws, Eof, x + 1));
    e := 0;
    while !OneByte(ws[e])
      invariant 0 <= e <= x && forall i :: 0 <= i < e ==> !OneByte(ws[i])
      decreases x - e
    {
      e := e + 1;
    }
    assert ws[x].Has(Eof);
  }

  lemma {:induction false} DivergedUpTo(m: Mfb, wss: seq<seq<Slot>>, k: nat, n: nat)
    requires m.Valid() && AllValid(m, wss) && k <= n <= |wss|
    requires Diverged(ParseWords(m, wss, k), Run(m, Encoded(m, wss), k))
    ensures Diverged(ParseWords(m, wss, n), Run(m, Encoded(m, wss), n))
    decreases n
  {
    hide Feed, Diverged, Run, ParseWords, Encode;
    if n > k {
      DivergedUpTo(m, wss, k, n - 1);
      ParseWordsStep(m, wss, n - 1);
      var r := Run(m, Encoded(m, wss), n - 1);
      if r.Failure? {
        RunFails(m, Encoded(m, wss), n - 1);
        FailureDiverges(ParseWords(m, wss, n), Run(m, Encoded(m, wss), n));
      } else {
        RunStep(m, Encoded(m, wss), n - 1, r.value);
        DivergedFeed(m, ParseWords(m, wss, n - 1), wss[n - 1], r.value, Encoded(m, wss)[n - 1]);
      }
    }
  }

  lemma ConformingValid(m: Mfb, wss: seq<seq<Slot>>)
    requires Conforming(m, wss)
    ensures m.Valid() && AllValid(m, wss)
  {
  }

  // The first break is a one-byte frame.
  lemma OneByteBreak(m: Mfb, wss: seq<seq<Slot>>, k: nat)
    requires Conforming(m, wss) && k < |wss| && OneByteOnlyLast(wss, k) && IdleOnlyLast(m, wss, k)
    requires !OneByteLast(wss[k], !NoEndFrom(wss, k + 1))
    ensures Diverged(ParseWords(m, wss, |wss|), Run(m, Encoded(m, wss), |wss|))
  {
    hide *;
    ConformingValid(m, wss);
    var e := FirstOneByte(wss[k], !NoEndFrom(wss, k + 1));
    BadStart(m, wss, k, e);
    BadUpTo(m, wss, k, |wss|);
    if NextMark(wss[k], Eof, e + 1).Some? {
      DivergedUpTo(m, wss, k + 1, |wss|);
    } else {
      BadEnd(m, wss, k);
    }
  }

  lemma BadEnd(m: Mfb, wss: seq<seq<Slot>>, k: nat)
    requires m.Valid() && AllValid(m, wss) && k < |wss| && Bad(m, wss, k, |wss|) && !NoEndFrom(wss, k + 1)
    ensures Diverged(ParseWords(m, wss, |wss|), Run(m, Encoded(m, wss), |wss|))
  {
    hide Stale, ParseWords, Run, Diverged, ValidSlots, Encoded;
  }

  // ---------------------------------------------------------------- the idle word

  // The first buffered word shows no start.
  ghost predicate Headless(m: Mfb, words: seq<CapturedWord>) {
    words != [] && AllShaped(m, words) && !Detect(m, words[0], Sof).detected
  }

  // An idle word that meets an empty buffer is buffered without a start.
  lemma IdleBuffered(m: Mfb, wss: seq<seq<Slot>>, k: nat)
    requires Conforming(m, wss) && k < |wss| && OneByteOnlyLast(wss, k) && IdleOnlyLast(m, wss, k)
    requires IdleAt(m, wss, k) && !NoEndFrom(wss, k + 1)
    ensures Run(m, Encoded(m, wss), k + 1).Success? && Headless(m, Run(m, Encoded(m, wss), k + 1).value.words)
  {
    hide Feed, Held, ParseWords, Parse, Run, WordOf, Encode, SingleMarks, Detect;
    var st := RunUpTo(m, wss, k);
    IdleNoEnd(m, wss, k);
    RunStep(m, Encoded(m, wss), k, st);
    FeedNoEnd(m, ParseWords(m, wss, k), wss[k], st);
    DetectNone(m, wss[k], 0, 0, Sof);
  }

  // Such a buffer grows until an end arrives, and then decoding fails.
  lemma HeadlessFeed(m: Mfb, ws: seq<Slot>, st: State)
    requires WordSlots(m, ws) && Headless(m, st.words)
    ensures NextMark(ws, Eof, 0).Some? ==> Feed(m, st, Encode(m, ws, Flat(ws))) == Failure(NoStartDetected)
    ensures NextMark(ws, Eof, 0).None? ==> (
      var r := Feed(m, st, Encode(m, ws, Flat(ws))); r.Success? && Headless(m, r.value.words))
  {
    hide WordOf, Detect, Pieces;
    var o := NextMark(ws, Eof, 0);
    if o.Some? {
      CaptureEncode(m, ws);
      var r, p := Locate(m, m.regions, o.value);
      DetectOf(m, ws, 0, 0, Eof, o.value, r, p);
    } else {
      FeedNoEnd(m, START, ws, st);
    }
  }

  lemma {:induction false} HeadlessUpTo(m: Mfb, wss: seq<seq<Slot>>, k: nat, n: nat)
    requires Conforming(m, wss) && k < n <= |wss|
    requires Run(m, Encoded(m, wss), k + 1).Success? && Headless(m, Run(m, Encoded(m, wss), k + 1).value.words)
    ensures var r := Run(m, Encoded(m, wss), n);
      || r == Failure(NoStartDetected)
      || (r.Success? && Headless(m, r.value.words) && forall i :: k < i < n ==> NoneFrom(wss[i], Eof, 0))
    decreases n
  {
    hide Feed, Headless, Run, WordOf, Encode, Alternating, SingleMarks, ParseWords;
    if n > k + 1 {
      HeadlessUpTo(m, wss, k, n - 1);
      var r := Run(m, Encoded(m, wss), n - 1);
      if r.Failure? {
        RunFails(m, Encoded(m, wss), n - 1);
      } else {
        RunStep(m, Encoded(m, wss), n - 1, r.value);
        HeadlessFeed(m, wss[n - 1], r.value);
      }
    }
  }

  // An idle word with an end behind it: the recorder raises its no-start error.
  lemma IdleBreak(m: Mfb, wss: seq<seq<Slot>>, k: nat)
    requires Conforming(m, wss) && k < |wss| && OneByteOnlyLast(wss, k) && IdleOnlyLast(m, wss, k)
    requires IdleAt(m, wss, k) && !NoEndFrom(wss, k + 1)
    ensures Run(m, Encoded(m, wss), |wss|) == Failure(NoStartDetected)
  {
    hide Conforming, OneByteOnlyLast, IdleOnlyLast, IdleAt, Run, Headless, NoneFrom;
    ConformingValid(m, wss);
    IdleBuffered(m, wss, k);
    HeadlessUpTo(m, wss, k, |wss|);
  }

  // ---------------------------------------------------------------- the exact condition

  // A broken condition makes the capture diverge.
  lemma BreakDiverges(m: Mfb, wss: seq<seq<Slot>>)
    requires Conforming(m, wss) && !(OneByteOnlyLast(wss, |wss|) && IdleOnlyLast(m, wss, |wss|))
    ensures Diverged(ParseWords(m, wss, |wss|), Run(m, Encoded(m, wss), |wss|))
  {
    hide *;
    ConformingValid(m, wss);
    var k := FirstBreak(m, wss, |wss|);
    if !OneByteLast(wss[k], !NoEndFrom(wss, k + 1)) {
      OneByteBreak(m, wss, k);
    } else {
      IdleBreak(m, wss, k);
      FailureDiverges(ParseWords(m, wss, |wss|), Run(m, Encoded(m, wss), |wss|));
    }
  }

  // On every conforming stream the recorder captures precisely the frames of the stream if
  // and only if no one-byte frame and no idle word is followed by an end of frame.
  lemma RecorderExact(m: Mfb, wss: seq<seq<Slot>>)
    requires Conforming(m, wss)
    ensures OneByteOnlyLast(wss, |wss|) && IdleOnlyLast(m, wss, |wss|) <==> (
      var r := Run(m, Encoded(m, wss), |wss|); r.Success? && r.value.packets == ParseWords(m, wss, |wss|).frames)
  {
    hide ParseWords, Run, Alternating, SingleMarks, IdleAt;
    if OneByteOnlyLast(wss, |wss|) && IdleOnlyLast(m, wss, |wss|) {
      var r := RunUpTo(m, wss, |wss|);
    } else {
      BreakDiverges(m, wss);
    }
  }

  lemma NeverIdle(m: Mfb, wss: seq<seq<Slot>>)
    requires AllValid(m, wss) && NoIdleWord(m, wss)
    ensures IdleOnlyLast(m, wss, |wss|)
  {
    hide IdleAt;
  }

  // The stream after its first word, when that word is idle.
  lemma {:induction false} ParseIdle(m: Mfb, ws: seq<Slot>, wss: seq<seq<Slot>>, n: nat)
    requires n <= |wss| && AllValid(m, [ws] + wss) && AllValid(m, wss)
    requires ValidSlots(m, ws) && Parse(m, START, ws) == START
    ensures ParseWords(m, [ws] + wss, n + 1) == ParseWords(m, wss, n)
    decreases n
  {
    hide Parse;
    assert ParseWords(m, [ws] + wss, 0) == START && ([ws] + wss)[0] == ws;
    if n > 0 { ParseIdle(m, ws, wss, n - 1); }
  }

  lemma {:induction false} FramesNeedEnds(m: Mfb, wss: seq<seq<Slot>>, n: nat)
    requires AllValid(m, wss) && n <= |wss| && NoEndFrom(wss, 0)
    ensures ParseWords(m, wss, n).frames == []
    decreases n
  {
    hide Parse;
    if n > 0 {
      FramesNeedEnds(m, wss, n - 1);
      NoMoreFrames(m, ParseWords(m, wss, n - 1), wss[n - 1], 0, |wss[n - 1]|);
      ParseEnds(m, ParseWords(m, wss, n - 1), wss[n - 1]);
    }
  }

  // Whatever frames follow, one idle word at the start of a capture loses them all.
  lemma IdleFirst(m: Mfb, ws: seq<Slot>, wss: seq<seq<Slot>>)
    requires WordSlots(m, ws) && NoneFrom(ws, Sof, 0) && NoneFrom(ws, Eof, 0)
    requires Conforming(m, wss) && ParseWords(m, wss, |wss|).frames != []
    ensures Conforming(m, [ws] + wss) && ParseWords(m, [ws] + wss, |wss| + 1) == ParseWords(m, wss, |wss|)
    ensures Run(m, Encoded(m, [ws] + wss), |wss| + 1) == Failure(NoStartDetected)
  {
    hide Parse, ParseWords, SingleMarks, Run, Encode, NoEndFrom;
    IdleParse(m, ws);
    IdleConforms(m, ws, wss);
    ParseIdle(m, ws, wss, |wss|);
    if NoEndFrom(wss, 0) { FramesNeedEnds(m, wss, |wss|); }
    IdleEnds(ws, wss);
    IdleBreak(m, [ws] + wss, 0);
  }

  lemma IdleParse(m: Mfb, ws: seq<Slot>)
    requires WordSlots(m, ws) && NoneFrom(ws, Sof, 0) && NoneFrom(ws, Eof, 0)
    ensures Parse(m, START, ws) == START && Alternating(m, START, ws)
  {
    hide Parse, SingleMarks;
    ParseEnds(m, START, ws);
    StillClosed(m, START, ws, 0, |ws|);
  }

  lemma IdleEnds(ws: seq<Slot>, wss: seq<seq<Slot>>)
    requires !NoEndFrom(wss, 0)
    ensures !NoEndFrom([ws] + wss, 1)
  {
    hide NoneFrom;
    var k :| 0 <= k < |wss| && !NoneFrom(wss[k], Eof, 0);
    assert ([ws] + wss)[k + 1] == wss[k];
  }

  lemma IdleConforms(m: Mfb, ws: seq<Slot>, wss: seq<seq<Slot>>)
    requires WordSlots(m, ws) && Parse(m, START, ws) == START && Alternating(m, START, ws) && Conforming(m, wss)
    ensures Conforming(m, [ws] + wss) && ParseWords(m, [ws] + wss, 0) == START
  {
    hide Parse, ParseWords, SingleMarks, Alternating, ValidSlots;
    var all := [ws] + wss;
    assert ParseWords(m, all, 0) == START by { ParseNothing(m, all); }
    forall k | 0 <= k < |all|
      ensures WordSlots(m, all[k]) && Alternating(m, ParseWords(m, all, k), all[k])
    {
      if k > 0 {
        ParseIdle(m, ws, wss, k - 1);
        assert all[k] == wss[k - 1];
      }
    }
  }

  lemma ParseNothing(m: Mfb, wss: seq<seq<Slot>>)
    requires AllValid(m, wss)
    ensures ParseWords(m, wss, 0) == START
  {
  }
}
