// Which frames of a run lie behind a skipped slot of the last word, from their sizes alone.
module GapFrames {
  import opened Numbers
  import opened MfbStream
  import opened FrameLayout
  import opened SkippedSlots
  import opened FrameFit

  // Frames behind the first skipped slot of the word being filled, after a run as in FillAll
  // that begins with k of them.
  function BehindSkip(m: Mfb, depth: nat, f: Fill, k: nat, sizes: seq<nat>): nat
    requires m.Valid()
    decreases |sizes|
  {
    if sizes == [] then k
    else
      var n, rest := sizes[|sizes| - 1], sizes[..|sizes| - 1];
      if f.words + WordsRequired(m, n) > depth then k
      else if n == 0 then BehindSkip(m, depth, f, k, rest)
      else
        var g := FillFrame(m, f, n);
        BehindSkip(m, depth, g, if g.gap then k + 1 else 0, rest)
  }

  ghost predicate Zeros(bytes: seq<byte>) {
    forall i :: 0 <= i < |bytes| ==> bytes[i] == 0
  }

  // The last k frames are zeros.
  ghost predicate LastZeros(frames: seq<seq<byte>>, k: nat) {
    forall i :: 0 <= i < |frames| && |frames| - k <= i ==> Zeros(frames[i])
  }

  lemma LastZerosNext(frames: seq<seq<byte>>, frame: seq<byte>, k: nat)
    ensures LastZeros(frames + [frame], k + 1) <==> LastZeros(frames, k) && Zeros(frame)
  {
    hide Zeros;
    var all := frames + [frame];
    assert all[|frames|] == frame;
    if LastZeros(all, k + 1) {
      forall i | 0 <= i < |frames| && |frames| - k <= i
        ensures Zeros(frames[i])
      {
        assert all[i] == frames[i];
      }
    }
  }

  // ---------------------------------------------------------------- zeros in blocks

  lemma PaddedZero(m: Mfb, chunk: seq<byte>)
    requires |chunk| <= m.blockSize
    ensures Padded(m, chunk) == Repeat(0, m.blockSize) <==> Zeros(chunk)
  {
    var p := Padded(m, chunk);
    if p == Repeat(0, m.blockSize) {
      forall i | 0 <= i < |chunk|
        ensures chunk[i] == 0
      {
        assert chunk[i] == p[i];
      }
    }
  }

  lemma {:induction false} ZerosConcat(cs: seq<seq<byte>>)
    ensures Zeros(Concat(cs)) <==> forall i :: 0 <= i < |cs| ==> Zeros(cs[i])
  {
    if cs != [] {
      var n := |cs| - 1;
      ZerosConcat(cs[..n]);
      ZerosJoin(Concat(cs[..n]), cs[n]);
    }
  }

  lemma ZerosJoin(a: seq<byte>, b: seq<byte>)
    ensures Zeros(a + b) <==> Zeros(a) && Zeros(b)
  {
    if Zeros(a + b) {
      assert forall i :: 0 <= i < |a| ==> a[i] == (a + b)[i];
      assert forall i :: 0 <= i < |b| ==> b[i] == (a + b)[|a| + i];
    }
  }

  // A frame is zeros exactly if all its blocks are.
  lemma ZeroBlocks(m: Mfb, frame: seq<byte>)
    requires m.Valid()
    ensures var cs := Chunks(m, frame);
      Zeros(frame) <==> forall i :: 0 <= i < |cs| ==> BlockSlot(m, cs, i).data == Repeat(0, m.blockSize)
  {
    hide Zeros, Padded, Concat;
    var cs := Chunks(m, frame);
    ConcatChunks(m, frame);
    ZerosConcat(cs);
    forall i | 0 <= i < |cs|
      ensures BlockSlot(m, cs, i).data == Repeat(0, m.blockSize) <==> Zeros(cs[i])
    {
      PaddedZero(m, cs[i]);
    }
  }

  // ---------------------------------------------------------------- a frame in one word

  // As long as no word is sent, the blocks of a frame lie behind the settled slots in order.
  lemma {:induction false} WithinWord(m: Mfb, lay: Layout, cs: seq<seq<byte>>, n: nat)
    requires m.Valid() && n <= |cs|
    ensures |PlaceBlocks(m, lay, cs, n).sent| >= |lay.sent|
    ensures |PlaceBlocks(m, lay, cs, n).sent| == |lay.sent| && n > 0 ==> (
      var c, d := Settle(m, lay.cur, true), PlaceBlocks(m, lay, cs, n).cur;
      && |d| == |c| + n && d[..|c|] == c
      && forall i :: 0 <= i < n ==> d[|c| + i] == BlockSlot(m, cs, i))
  {
    hide Settle, Padded;
    if n > 0 {
      WithinWord(m, lay, cs, n - 1);
      if n > 1 { NotSettled(m, PlaceBlocks(m, lay, cs, n - 1).cur, false); }
    }
  }

  // Behind a skipped slot every further block has to be zeros.
  lemma ZeroTail(m: Mfb, c: seq<Slot>, d: seq<Slot>)
    requires |c| <= |d| && d[..|c|] == c && !AllUsed(c) && forall i :: |c| <= i < |d| ==> d[i].used
    ensures ZeroAfterGap(m, d) <==>
      ZeroAfterGap(m, c) && forall i :: |c| <= i < |d| ==> d[i].data == Repeat(0, m.blockSize)
  {
    var j :| 0 <= j < |c| && !c[j].used;
    assert forall i :: 0 <= i < |c| ==> c[i] == d[i];
    assert !d[j].used;
  }

  lemma ZeroPads(m: Mfb, cur: seq<Slot>, n: nat)
    ensures ZeroAfterGap(m, cur + Pads(m, n)) <==> ZeroAfterGap(m, cur)
  {
    var c := cur + Pads(m, n);
    assert forall i :: 0 <= i < |cur| ==> c[i] == cur[i];
  }

  lemma ZeroSettled(m: Mfb, cur: seq<Slot>)
    requires m.Valid()
    ensures ZeroAfterGap(m, Settle(m, cur, true)) <==> ZeroAfterGap(m, cur)
  {
    hide Level, Started, ZeroAfterGap;
    ZeroPads(m, cur, m.regionSize - Level(m, |cur|));
  }

  // One frame more: behind a skipped slot it has to be zeros, and else nothing has to be.
  lemma BehindFrame(m: Mfb, lay: Layout, f: Fill, frame: seq<byte>)
    requires m.Valid() && Shows(m, lay, f) && frame != []
    ensures |Chunks(m, frame)| > 0
    ensures var g := FillFrame(m, f, |Chunks(m, frame)|);
      ZeroAfterGap(m, PlaceFrame(m, lay, frame).cur) <==> (g.gap ==> ZeroAfterGap(m, lay.cur) && Zeros(frame))
  {
    hide Shows, FillFrame, PlaceBlocks, ZeroAfterGap, Zeros, AllUsed, Settle, Padded;
    var cs := Chunks(m, frame);
    var g := FillFrame(m, f, |cs|);
    var next := PlaceFrame(m, lay, frame);
    ShowsBlocks(m, lay, f, cs, |cs|);
    ShowsParts(m, next, g);
    ShowsParts(m, lay, f);
    if g.gap {
      GapStays(m, f, |cs|);
      WithinWord(m, lay, cs, |cs|);
      SettledGap(m, lay, f);
      ShiftBlocks(m, cs, next.cur, |Settle(m, lay.cur, true)|);
      ZeroTail(m, Settle(m, lay.cur, true), next.cur);
      ZeroSettled(m, lay.cur);
      ZeroBlocks(m, frame);
    } else {
      NothingSkipped(m, next.cur);
    }
  }

  lemma NothingSkipped(m: Mfb, cur: seq<Slot>)
    requires AllUsed(cur)
    ensures ZeroAfterGap(m, cur)
  {
  }

  lemma ShiftBlocks(m: Mfb, cs: seq<seq<byte>>, d: seq<Slot>, k: nat)
    requires |d| == k + |cs| && forall i :: 0 <= i < |cs| ==> d[k + i] == BlockSlot(m, cs, i)
    ensures forall i :: k <= i < |d| ==> d[i].used
    ensures (forall i :: k <= i < |d| ==> d[i].data == Repeat(0, m.blockSize))
      <==> forall i :: 0 <= i < |cs| ==> BlockSlot(m, cs, i).data == Repeat(0, m.blockSize)
  {
    hide Padded;
    forall i | k <= i < |d|
      ensures d[i] == BlockSlot(m, cs, i - k)
    {
      assert d[k + (i - k)] == BlockSlot(m, cs, i - k);
    }
    forall i | 0 <= i < |cs|
      ensures d[k + i] == BlockSlot(m, cs, i)
    {
    }
  }

  // A word keeps a skipped slot only if the frame stays in it.
  lemma GapStays(m: Mfb, f: Fill, n: nat)
    requires m.Valid() && n > 0 && FillFrame(m, f, n).gap
    ensures FillFrame(m, f, n).words == f.words && (f.gap || Skips(m, f))
  {
  }

  lemma SettledGap(m: Mfb, lay: Layout, f: Fill)
    requires m.Valid() && Shows(m, lay, f) && (f.gap || Skips(m, f))
    ensures !AllUsed(Settle(m, lay.cur, true))
  {
    hide Shows, AllUsed, Settle;
    ShowsParts(m, lay, f);
    if f.started { ShowsSettled(m, lay, f); } else { NotSettled(m, lay.cur, true); }
  }

  // ---------------------------------------------------------------- a whole run

  // After a run the blocks behind a skipped slot are zeros exactly if the frames are that the
  // sizes put there.
  lemma {:induction false} BehindAll(m: Mfb, depth: nat, lay: Layout, f: Fill, frames: seq<seq<byte>>, k: nat,
      packets: seq<seq<byte>>)
    requires m.Valid() && Shows(m, lay, f) && (ZeroAfterGap(m, lay.cur) <==> LastZeros(frames, k))
    ensures ZeroAfterGap(m, Place(m, depth, lay, packets).cur) <==>
      LastZeros(frames + Placed(m, depth, lay, packets), BehindSkip(m, depth, f, k, Sizes(m, packets)))
    decreases |packets|
  {
    hide Shows, FillFrame, PlaceBlocks, WordsRequired, Chunks, ZeroAfterGap, LastZeros, Zeros;
    if packets == [] {
      assert frames + [] == frames;
    } else {
      var frame, rest := packets[|packets| - 1], packets[..|packets| - 1];
      var cs := Chunks(m, frame);
      ChunkCount(m, frame);
      ShowsWords(m, lay, f);
      assert Sizes(m, packets)[..|packets| - 1] == Sizes(m, rest);
      if !HasRoom(m, depth, lay, frame) {
        assert frames + [] == frames;
      } else if frame == [] {
        NoBlocks(m, lay, cs);
        BehindAll(m, depth, lay, f, frames, k, rest);
        assert [] + Placed(m, depth, lay, rest) == Placed(m, depth, lay, rest);
      } else {
        var g := FillFrame(m, f, |cs|);
        BehindFrame(m, lay, f, frame);
        ShowsBlocks(m, lay, f, cs, |cs|);
        LastZerosNext(frames, frame, k);
        LastZerosNone(frames + [frame]);
        var next := PlaceFrame(m, lay, frame);
        BehindAll(m, depth, next, g, frames + [frame], if g.gap then k + 1 else 0, rest);
        assert frames + ([frame] + Placed(m, depth, next, rest)) == frames + [frame] + Placed(m, depth, next, rest);
      }
    }
  }

  lemma LastZerosNone(frames: seq<seq<byte>>)
    ensures LastZeros(frames, 0)
  {
  }
}
