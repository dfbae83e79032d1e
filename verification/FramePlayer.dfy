// The frame player: the word being filled, region by region, and its register writes.
module FramePlayer {
  import opened Numbers
  import opened Options
  import opened MfbStream
  import opened FrameRecorder
  import opened CapturedWords
  import opened FrameLayout

  // The word under construction: per region its blocks, flags and positions.
  datatype MfbStruct = MfbStruct(word: seq<seq<seq<byte>>>, sof: seq<bool>, sofPos: seq<nat>, eof: seq<bool>,
    eofPos: seq<nat>) {
    predicate Shaped(m: Mfb) {
      |word| == m.regions && |sof| == m.regions && |sofPos| == m.regions && |eof| == m.regions && |eofPos| == m.regions
    }
  }

  // _reset_mfb_struct
  function ResetMfbStruct(m: Mfb): (mfb: MfbStruct)
    ensures mfb.Shaped(m)
  {
    MfbStruct(Repeat([], m.regions), Repeat(false, m.regions), Repeat<nat>(0, m.regions), Repeat(false, m.regions),
      Repeat<nat>(0, m.regions))
  }

  // ---------------------------------------------------------------- bytes and registers

  function RegionBytes(blocks: seq<seq<byte>>): seq<byte> {
    if blocks == [] then [] else blocks[0] + RegionBytes(blocks[1..])
  }

  function StructBytes(word: seq<seq<seq<byte>>>): seq<byte> {
    if word == [] then [] else RegionBytes(word[0]) + StructBytes(word[1..])
  }

  // Flags as bits and guarded positions, lowest region first.
  function FlagBits(fs: seq<bool>): (ds: seq<nat>)
    ensures |ds| == |fs| && Bits(ds)
    ensures forall i :: 0 <= i < |fs| ==> ds[i] == if fs[i] then 1 else 0
  {
    seq<nat>(|fs|, i requires 0 <= i < |fs| => if fs[i] then 1 else 0)
  }

  function Guarded(fs: seq<bool>, ps: seq<nat>): (ds: seq<nat>)
    requires |fs| == |ps|
    ensures |ds| == |fs|
    ensures forall i :: 0 <= i < |fs| ==> ds[i] == if fs[i] then ps[i] else 0
  {
    seq<nat>(|fs|, i requires 0 <= i < |fs| => if fs[i] then ps[i] else 0)
  }

  // The register writes for one word.
  function Image(m: Mfb, mfb: MfbStruct): BusWord
    requires mfb.Shaped(m)
  {
    BusWord(
      Unpack(32, Pack(8, StructBytes(mfb.word)), m.Transactions()),
      Pack(m.PosWidth(Sof), Guarded(mfb.sof, mfb.sofPos)),
      Pack(m.PosWidth(Eof), Guarded(mfb.eof, mfb.eofPos)),
      PackVld(m, FlagBits(mfb.eof), FlagBits(mfb.sof)))
  }

  // Every region's flags, positions and blocks are those of the slots.
  ghost predicate Represents(m: Mfb, mfb: MfbStruct, cur: seq<Slot>) {
    && mfb.Shaped(m)
    && (forall r :: 0 <= r < m.regions ==> RepresentsRegion(m, mfb, cur, r))
  }

  ghost predicate RepresentsRegion(m: Mfb, mfb: MfbStruct, cur: seq<Slot>, r: nat)
    requires mfb.Shaped(m) && r < m.regions
  {
    && mfb.word[r] == UsedIn(cur, m.Base(r), m.Base(r) + m.regionSize)
    && mfb.sof[r] == RegionMark(m, cur, Sof, r).Some? && mfb.sofPos[r] == RegionPos(m, cur, Sof, r)
    && mfb.eof[r] == RegionMark(m, cur, Eof, r).Some? && mfb.eofPos[r] == RegionPos(m, cur, Eof, r)
  }

  // The blocks in the slots [lo, hi).
  function UsedIn(ws: seq<Slot>, lo: nat, hi: nat): seq<seq<byte>>
    requires lo <= hi
    decreases hi
  {
    if lo == hi then []
    else UsedIn(ws, lo, hi - 1) + if hi - 1 < |ws| && ws[hi - 1].used then [ws[hi - 1].data] else []
  }

  // ---------------------------------------------------------------- the registers are the slots' image

  lemma {:induction false} RegionBytesAppend(xs: seq<seq<byte>>, b: seq<byte>)
    ensures RegionBytes(xs + [b]) == RegionBytes(xs) + b
  {
    if xs == [] {
      assert [] + [b] == [b] && [b][1..] == [];
      assert b + [] == [] + b;
    } else {
      RegionBytesAppend(xs[1..], b);
      assert (xs + [b])[1..] == xs[1..] + [b];
    }
  }

  lemma {:induction false} StructBytesAppend(xs: seq<seq<seq<byte>>>, b: seq<seq<byte>>)
    ensures StructBytes(xs + [b]) == StructBytes(xs) + RegionBytes(b)
  {
    if xs == [] {
      assert [] + [b] == [b] && [b][1..] == [];
      assert RegionBytes(b) + [] == [] + RegionBytes(b);
    } else {
      StructBytesAppend(xs[1..], b);
      assert (xs + [b])[1..] == xs[1..] + [b];
    }
  }

  // The blocks of the slots before n, as bytes.
  function UsedUpTo(ws: seq<Slot>, n: nat): seq<byte> {
    UsedBytes(ws[..if n < |ws| then n else |ws|])
  }

  lemma UsedUpToNext(ws: seq<Slot>, n: nat)
    ensures UsedUpTo(ws, n + 1) == UsedUpTo(ws, n) + if n < |ws| && ws[n].used then ws[n].data else []
  {
    if n < |ws| {
      assert ws[..n + 1][..n] == ws[..n];
    } else {
      assert UsedUpTo(ws, n) + [] == UsedUpTo(ws, n);
    }
  }

  lemma {:induction false} UsedInBytes(ws: seq<Slot>, lo: nat, hi: nat)
    requires lo <= hi
    ensures UsedUpTo(ws, lo) + RegionBytes(UsedIn(ws, lo, hi)) == UsedUpTo(ws, hi)
    decreases hi
  {
    hide UsedBytes, UsedUpTo;
    if lo == hi {
      assert UsedUpTo(ws, lo) + [] == UsedUpTo(ws, lo);
    } else {
      UsedInBytes(ws, lo, hi - 1);
      UsedUpToNext(ws, hi - 1);
      if hi - 1 < |ws| && ws[hi - 1].used {
        RegionBytesAppend(UsedIn(ws, lo, hi - 1), ws[hi - 1].data);
      } else {
        assert UsedIn(ws, lo, hi - 1) + [] == UsedIn(ws, lo, hi - 1);
      }
    }
  }

  lemma {:induction false} StructBytesUsed(m: Mfb, mfb: MfbStruct, cur: seq<Slot>, n: nat)
    requires Represents(m, mfb, cur) && n <= m.regions
    ensures StructBytes(mfb.word[..n]) == UsedUpTo(cur, m.Base(n))
    decreases n
  {
    hide UsedUpTo;
    if n == 0 {
      UsedNone(cur);
    } else {
      StructBytesUsed(m, mfb, cur, n - 1);
      assert RepresentsRegion(m, mfb, cur, n - 1);
      assert mfb.word[..n] == mfb.word[..n - 1] + [mfb.word[n - 1]];
      StructBytesAppend(mfb.word[..n - 1], mfb.word[n - 1]);
      UsedInBytes(cur, m.Base(n - 1), m.Base(n));
    }
  }

  lemma UsedNone(cur: seq<Slot>)
    ensures UsedUpTo(cur, 0) == []
    ensures forall n :: n >= |cur| ==> UsedUpTo(cur, n) == UsedBytes(cur)
  {
    assert cur[..0] == [] && cur[..|cur|] == cur;
  }

  lemma RegistersRepresent(m: Mfb, mfb: MfbStruct, cur: seq<Slot>)
    requires Represents(m, mfb, cur)
    ensures Guarded(mfb.sof, mfb.sofPos) == Positions(m, cur, Sof)
    ensures Guarded(mfb.eof, mfb.eofPos) == Positions(m, cur, Eof)
    ensures FlagBits(mfb.sof) == Flags(m, cur, Sof, 0) && FlagBits(mfb.eof) == Flags(m, cur, Eof, 0)
  {
    forall r | 0 <= r < m.regions
      ensures Guarded(mfb.sof, mfb.sofPos)[r] == RegionPos(m, cur, Sof, r)
      ensures Guarded(mfb.eof, mfb.eofPos)[r] == RegionPos(m, cur, Eof, r)
      ensures FlagBits(mfb.sof)[r] == RegionFlag(m, cur, Sof, 0, r)
      ensures FlagBits(mfb.eof)[r] == RegionFlag(m, cur, Eof, 0, r)
    {
      assert RepresentsRegion(m, mfb, cur, r);
    }
  }

  // What is written for a word is the image of its slots.
  lemma ImageIsEncode(m: Mfb, mfb: MfbStruct, cur: seq<Slot>)
    requires Represents(m, mfb, cur) && |cur| <= m.Slots()
    ensures Image(m, mfb) == Encode(m, cur, UsedBytes(cur))
  {
    hide Pack, Unpack, StructBytes, UsedBytes, Or;
    StructBytesUsed(m, mfb, cur, m.regions);
    assert mfb.word[..m.regions] == mfb.word;
    UsedNone(cur);
    RegistersRepresent(m, mfb, cur);
    PackVldBits(m, Flags(m, cur, Eof, 0), Flags(m, cur, Sof, 0));
  }

  // ---------------------------------------------------------------- filling a word

  function MarkUsed(ws: seq<Slot>): (r: seq<Slot>)
    ensures |r| == |ws| && forall i :: 0 <= i < |ws| ==> r[i] == ws[i].(used := true)
  {
    seq(|ws|, i requires 0 <= i < |ws| => ws[i].(used := true))
  }

  // Skipped slots are padding, and only at the end of a region.
  ghost predicate PadsLast(m: Mfb, ws: seq<Slot>) {
    && (forall i :: 0 <= i < |ws| && !ws[i].used ==> ws[i] == PadSlot(m))
    && (forall r, i, j :: m.Base(r) <= i < j < m.Base(r) + m.regionSize && j < |ws| && ws[j].used ==> ws[i].used)
  }

  function ZeroBlock(m: Mfb): seq<byte> {
    Repeat(0, m.blockSize)
  }

  lemma {:induction false} UsedInAll(ws: seq<Slot>, lo: nat, hi: nat)
    requires lo <= hi
    ensures |UsedIn(ws, lo, hi)| <= hi - lo
    ensures hi <= |ws| && (forall i :: lo <= i < hi ==> ws[i].used) ==> |UsedIn(ws, lo, hi)| == hi - lo
    decreases hi
  {
    if lo < hi { UsedInAll(ws, lo, hi - 1); }
  }

  // Extending a region with zero blocks fills its skipped slots.
  lemma {:induction false} UsedInFilled(m: Mfb, ws: seq<Slot>, r: nat, hi: nat)
    requires PadsLast(m, ws) && m.Base(r) <= hi <= m.Base(r) + m.regionSize && hi <= |ws|
    ensures var u := UsedIn(ws, m.Base(r), hi);
      |u| <= hi - m.Base(r) && UsedIn(MarkUsed(ws), m.Base(r), hi) == u + Repeat(ZeroBlock(m), hi - m.Base(r) - |u|)
    decreases hi
  {
    var lo := m.Base(r);
    UsedInAll(ws, lo, hi);
    if lo < hi {
      UsedInFilled(m, ws, r, hi - 1);
      if ws[hi - 1].used {
        UsedInAll(ws, lo, hi - 1);
      }
    }
  }

  lemma {:induction false} MarkUsedMark(ws: seq<Slot>, mark: Mark, lo: nat, hi: nat)
    requires lo <= hi
    ensures LastMark(MarkUsed(ws), mark, lo, hi) == LastMark(ws, mark, lo, hi)
    decreases hi
  {
    if lo < hi { MarkUsedMark(ws, mark, lo, hi - 1); }
  }

  lemma {:induction false} MarkUsedFlat(ws: seq<Slot>)
    ensures Flat(MarkUsed(ws)) == Flat(ws) && UsedBytes(MarkUsed(ws)) == Flat(ws)
  {
    if ws != [] {
      MarkUsedFlat(ws[..|ws| - 1]);
      assert MarkUsed(ws)[..|ws| - 1] == MarkUsed(ws[..|ws| - 1]);
    }
  }

  lemma MarkUsedRegion(m: Mfb, ws: seq<Slot>, r: nat)
    ensures RegionMark(m, MarkUsed(ws), Sof, r) == RegionMark(m, ws, Sof, r)
    ensures RegionMark(m, MarkUsed(ws), Eof, r) == RegionMark(m, ws, Eof, r)
    ensures RegionPos(m, MarkUsed(ws), Sof, r) == RegionPos(m, ws, Sof, r)
    ensures RegionPos(m, MarkUsed(ws), Eof, r) == RegionPos(m, ws, Eof, r)
    ensures RegionFlag(m, MarkUsed(ws), Sof, 0, r) == RegionFlag(m, ws, Sof, 0, r)
    ensures RegionFlag(m, MarkUsed(ws), Eof, 0, r) == RegionFlag(m, ws, Eof, 0, r)
  {
    hide LastMark;
    MarkUsedMark(ws, Sof, m.Base(r), m.Base(r) + m.regionSize);
    MarkUsedMark(ws, Eof, m.Base(r), m.Base(r) + m.regionSize);
  }

  lemma MarkUsedEncode(m: Mfb, ws: seq<Slot>)
    ensures Encode(m, MarkUsed(ws), Flat(ws)) == Encode(m, ws, Flat(ws))
  {
    forall r: nat
      ensures RegionPos(m, MarkUsed(ws), Sof, r) == RegionPos(m, ws, Sof, r)
      ensures RegionPos(m, MarkUsed(ws), Eof, r) == RegionPos(m, ws, Eof, r)
      ensures RegionFlag(m, MarkUsed(ws), Sof, 0, r) == RegionFlag(m, ws, Sof, 0, r)
      ensures RegionFlag(m, MarkUsed(ws), Eof, 0, r) == RegionFlag(m, ws, Eof, 0, r)
    {
      MarkUsedRegion(m, ws, r);
    }
    assert Positions(m, MarkUsed(ws), Sof) == Positions(m, ws, Sof);
    assert Positions(m, MarkUsed(ws), Eof) == Positions(m, ws, Eof);
    assert Flags(m, MarkUsed(ws), Sof, 0) == Flags(m, ws, Sof, 0);
    assert Flags(m, MarkUsed(ws), Eof, 0) == Flags(m, ws, Eof, 0);
  }

  // One region of _fill_mfb_word.
  function FillRegion(m: Mfb, region: seq<seq<byte>>): seq<seq<byte>> {
    var padded := if |region| > 0 then region[|region| - 1 := Padded(m, region[|region| - 1])] else region;
    if |padded| < m.regionSize then padded + Repeat(ZeroBlock(m), m.regionSize - |padded|) else padded
  }

  lemma {:induction false} UsedInSizes(m: Mfb, ws: seq<Slot>, lo: nat, hi: nat)
    requires ValidSlots(m, ws) && lo <= hi
    ensures forall i :: 0 <= i < |UsedIn(ws, lo, hi)| ==> |UsedIn(ws, lo, hi)[i]| == m.blockSize
    decreases hi
  {
    if lo < hi { UsedInSizes(m, ws, lo, hi - 1); }
  }

  lemma FillRegionOf(m: Mfb, ws: seq<Slot>, r: nat)
    requires PadsLast(m, ws) && ValidSlots(m, ws) && r < m.regions && |ws| == m.Slots()
    ensures FillRegion(m, UsedIn(ws, m.Base(r), m.Base(r) + m.regionSize))
      == UsedIn(MarkUsed(ws), m.Base(r), m.Base(r) + m.regionSize)
  {
    hide UsedIn, MarkUsed, PadsLast, ValidSlots, FillRegion, Times;
    BaseBelow(m, r);
    var u := UsedIn(ws, m.Base(r), m.Base(r) + m.regionSize);
    UsedInFilled(m, ws, r, m.Base(r) + m.regionSize);
    UsedInSizes(m, ws, m.Base(r), m.Base(r) + m.regionSize);
    FillWhole(m, u);
  }

  lemma FillWhole(m: Mfb, u: seq<seq<byte>>)
    requires |u| <= m.regionSize && forall i :: 0 <= i < |u| ==> |u[i]| == m.blockSize
    ensures FillRegion(m, u) == u + Repeat(ZeroBlock(m), m.regionSize - |u|)
  {
    if u != [] { assert u[|u| - 1 := u[|u| - 1]] == u; }
    assert u + Repeat(ZeroBlock(m), 0) == u;
  }

  // ---------------------------------------------------------------- placing a block

  // Setting the flags of a block and appending it to its region.
  function PutBlock(m: Mfb, mfb: MfbStruct, reg: nat, s: Slot): (r: MfbStruct)
    requires mfb.Shaped(m) && reg < m.regions
    ensures r.Shaped(m)
  {
    var n := |mfb.word[reg]|;
    MfbStruct(
      mfb.word[reg := mfb.word[reg] + [s.data]],
      if s.sof then mfb.sof[reg := true] else mfb.sof,
      if s.sof then mfb.sofPos[reg := n] else mfb.sofPos,
      if s.eof then mfb.eof[reg := true] else mfb.eof,
      if s.eof then mfb.eofPos[reg := m.Bytes(n) + s.last] else mfb.eofPos)
  }

  // Slot |cur| - 1 lies in region reg, whose slots all carry blocks.
  ghost predicate Filling(m: Mfb, mfb: MfbStruct, reg: nat, cur: seq<Slot>) {
    && Represents(m, mfb, cur) && PadsLast(m, cur) && ValidSlots(m, cur) && |cur| <= m.Slots()
    && reg < m.regions && m.Base(reg) <= |cur| <= m.Base(reg) + m.regionSize && (cur == [] ==> reg == 0)
    && (cur != [] ==> m.Base(reg) < |cur|)
    && (forall i :: m.Base(reg) <= i < |cur| ==> cur[i].used)
  }

  // The same, with the next block falling into region reg.
  ghost predicate Ready(m: Mfb, mfb: MfbStruct, reg: nat, c: seq<Slot>) {
    && Represents(m, mfb, c) && PadsLast(m, c) && ValidSlots(m, c)
    && reg < m.regions && m.Base(reg) <= |c| < m.Base(reg) + m.regionSize
    && (forall i :: m.Base(reg) <= i < |c| ==> c[i].used)
  }

  lemma {:induction false} UsedInAppend(ws: seq<Slot>, s: Slot, lo: nat, hi: nat)
    requires lo <= hi
    ensures UsedIn(ws + [s], lo, hi) == if lo <= |ws| < hi && s.used then UsedIn(ws, lo, hi) + [s.data]
      else UsedIn(ws, lo, hi)
    decreases hi
  {
    if lo < hi { UsedInAppend(ws, s, lo, hi - 1); }
  }

  lemma UsedCount(m: Mfb, c: seq<Slot>, reg: nat)
    requires m.Base(reg) <= |c| <= m.Base(reg) + m.regionSize && forall i :: m.Base(reg) <= i < |c| ==> c[i].used
    ensures |UsedIn(c, m.Base(reg), m.Base(reg) + m.regionSize)| == |c| - m.Base(reg)
  {
    UsedInAll(c, m.Base(reg), |c|);
    UsedInBeyond(c, m.Base(reg), m.Base(reg) + m.regionSize);
  }

  lemma {:induction false} UsedInBeyond(ws: seq<Slot>, lo: nat, hi: nat)
    requires lo <= |ws| <= hi
    ensures UsedIn(ws, lo, hi) == UsedIn(ws, lo, |ws|)
    decreases hi
  {
    if |ws| < hi { UsedInBeyond(ws, lo, hi - 1); }
  }

  lemma RegionApart(m: Mfb, q: nat, r: nat, n: nat)
    requires m.Base(r) <= n < m.Base(r) + m.regionSize && q != r
    ensures !(m.Base(q) <= n < m.Base(q) + m.regionSize)
  {
    if q < r { TimesMonotone(q + 1, r, m.regionSize); } else { TimesMonotone(r + 1, q, m.regionSize); }
  }

  lemma NewMark(c: seq<Slot>, s: Slot, mark: Mark, lo: nat, hi: nat)
    requires lo <= |c| < hi
    ensures LastMark(c + [s], mark, lo, hi) == if s.Has(mark) then Some(|c|) else LastMark(c, mark, lo, hi)
  {
    if s.Has(mark) {
      assert (c + [s])[|c|].Has(mark);
    } else {
      LastMarkSame(c, s, mark, lo, hi);
    }
  }

  lemma PutBlockHere(m: Mfb, mfb: MfbStruct, reg: nat, c: seq<Slot>, s: Slot)
    requires Ready(m, mfb, reg, c) && s.used
    ensures RepresentsRegion(m, PutBlock(m, mfb, reg, s), c + [s], reg)
  {
    hide PadsLast, ValidSlots, UsedIn, LastMark;
    assert RepresentsRegion(m, mfb, c, reg);
    var lo := m.Base(reg);
    var hi := lo + m.regionSize;
    UsedInAppend(c, s, lo, hi);
    UsedCount(m, c, reg);
    NewMark(c, s, Sof, lo, hi);
    NewMark(c, s, Eof, lo, hi);
  }

  lemma PutBlockElsewhere(m: Mfb, mfb: MfbStruct, reg: nat, c: seq<Slot>, s: Slot, r: nat)
    requires Ready(m, mfb, reg, c) && s.used && r < m.regions && r != reg
    ensures RepresentsRegion(m, PutBlock(m, mfb, reg, s), c + [s], r)
  {
    hide PadsLast, ValidSlots, UsedIn, LastMark;
    assert RepresentsRegion(m, mfb, c, r);
    var lo := m.Base(r);
    var hi := lo + m.regionSize;
    UsedInAppend(c, s, lo, hi);
    RegionApart(m, r, reg, |c|);
    LastMarkSame(c, s, Sof, lo, hi);
    LastMarkSame(c, s, Eof, lo, hi);
  }

  // After the update the struct represents one slot more.
  lemma PutBlockFills(m: Mfb, mfb: MfbStruct, reg: nat, c: seq<Slot>, s: Slot)
    requires Ready(m, mfb, reg, c) && s.used && s.Valid(m)
    ensures Filling(m, PutBlock(m, mfb, reg, s), reg, c + [s])
  {
    hide RepresentsRegion;
    forall r | 0 <= r < m.regions
      ensures RepresentsRegion(m, PutBlock(m, mfb, reg, s), c + [s], r)
    {
      if r == reg { PutBlockHere(m, mfb, reg, c, s); } else { PutBlockElsewhere(m, mfb, reg, c, s, r); }
    }
    BaseBelow(m, reg);
    PutBlockPads(m, c, s, reg);
  }

  lemma PutBlockPads(m: Mfb, c: seq<Slot>, s: Slot, reg: nat)
    requires PadsLast(m, c) && s.used && m.Base(reg) <= |c| < m.Base(reg) + m.regionSize
    requires forall i :: m.Base(reg) <= i < |c| ==> c[i].used
    ensures PadsLast(m, c + [s])
  {
    var t := c + [s];
    forall r: nat, i: nat, j: nat | m.Base(r) <= i < j < m.Base(r) + m.regionSize && j < |t| && t[j].used
      ensures t[i].used
    {
      if j == |c| && r != reg { RegionApart(m, r, reg, |c|); }
    }
  }

  // Skipping slots changes nothing in the struct.
  lemma {:induction false} RepresentsPads(m: Mfb, mfb: MfbStruct, c: seq<Slot>, n: nat)
    requires Represents(m, mfb, c)
    ensures Represents(m, mfb, c + Pads(m, n))
    decreases n
  {
    hide RepresentsRegion;
    if n == 0 {
      assert c + Pads(m, 0) == c;
    } else {
      RepresentsPads(m, mfb, c, n - 1);
      var d := c + Pads(m, n - 1);
      assert d + [PadSlot(m)] == c + Pads(m, n);
      forall r | 0 <= r < m.regions
        ensures RepresentsRegion(m, mfb, d + [PadSlot(m)], r)
      {
        RepresentsPad(m, mfb, d, r);
      }
    }
  }

  lemma RepresentsPad(m: Mfb, mfb: MfbStruct, d: seq<Slot>, r: nat)
    requires mfb.Shaped(m) && r < m.regions && RepresentsRegion(m, mfb, d, r)
    ensures RepresentsRegion(m, mfb, d + [PadSlot(m)], r)
  {
    hide LastMark, UsedIn;
    UsedInAppend(d, PadSlot(m), m.Base(r), m.Base(r) + m.regionSize);
    LastMarkSame(d, PadSlot(m), Sof, m.Base(r), m.Base(r) + m.regionSize);
    LastMarkSame(d, PadSlot(m), Eof, m.Base(r), m.Base(r) + m.regionSize);
  }

  // ---------------------------------------------------------------- moving on

  lemma ResetFilling(m: Mfb)
    requires m.Valid()
    ensures Filling(m, ResetMfbStruct(m), 0, [])
  {
    SlotsPositive(m);
    forall r | 0 <= r < m.regions
      ensures RepresentsRegion(m, ResetMfbStruct(m), [], r)
    {
      UsedInAll([], m.Base(r), m.Base(r) + m.regionSize);
      UsedInNone([], m.Base(r), m.Base(r) + m.regionSize);
    }
  }

  lemma {:induction false} UsedInNone(ws: seq<Slot>, lo: nat, hi: nat)
    requires |ws| <= lo <= hi
    ensures UsedIn(ws, lo, hi) == []
    decreases hi
  {
    if lo < hi { UsedInNone(ws, lo, hi - 1); }
  }

  lemma StartedIsSof(m: Mfb, mfb: MfbStruct, reg: nat, cur: seq<Slot>)
    requires m.Valid() && Filling(m, mfb, reg, cur) && cur != []
    ensures Started(m, cur) == mfb.sof[reg] && |mfb.word[reg]| == Level(m, |cur|) == |cur| - m.Base(reg)
  {
    hide PadsLast, ValidSlots, UsedIn, LastMark, Level, RegionPos;
    assert RepresentsRegion(m, mfb, cur, reg);
    UsedCount(m, cur, reg);
    LevelIs(m, |cur|, reg);
  }

  lemma LevelIs(m: Mfb, n: nat, reg: nat)
    requires m.Valid() && m.Base(reg) < n <= m.Base(reg) + m.regionSize
    ensures Level(m, n) == n - m.Base(reg)
  {
    hide Level;
    var r := LevelRegion(m, n);
    if r < reg { TimesMonotone(r + 1, reg, m.regionSize); }
    if r > reg { TimesMonotone(reg + 1, r, m.regionSize); }
  }

  // Whether the region being filled cannot take the next block.
  predicate RegionDone(m: Mfb, mfb: MfbStruct, reg: nat, first: bool)
    requires mfb.Shaped(m) && reg < m.regions
  {
    |mfb.word[reg]| == m.regionSize || (first && mfb.sof[reg])
  }

  lemma SettleRepresents(m: Mfb, mfb: MfbStruct, reg: nat, cur: seq<Slot>, first: bool)
    requires m.Valid() && Filling(m, mfb, reg, cur)
    ensures var c := Settle(m, cur, first);
      && Represents(m, mfb, c) && ValidSlots(m, c)
      && |c| == (if cur != [] && RegionDone(m, mfb, reg, first) then m.Base(reg) + m.regionSize else |cur|)
      && (cur == [] ==> !RegionDone(m, mfb, reg, first))
  {
    hide RepresentsRegion, PadsLast;
    if cur == [] {
      EmptyNotDone(m, mfb, first);
    } else {
      StartedIsSof(m, mfb, reg, cur);
      RepresentsPads(m, mfb, cur, m.regionSize - Level(m, |cur|));
    }
  }

  lemma EmptyNotDone(m: Mfb, mfb: MfbStruct, first: bool)
    requires m.Valid() && Represents(m, mfb, [])
    ensures !RegionDone(m, mfb, 0, first)
  {
    assert RepresentsRegion(m, mfb, [], 0);
    UsedInNone([], 0, m.regionSize);
  }

  lemma SettlePads(m: Mfb, mfb: MfbStruct, reg: nat, cur: seq<Slot>, first: bool)
    requires m.Valid() && Filling(m, mfb, reg, cur)
    ensures PadsLast(m, Settle(m, cur, first))
  {
    hide Represents;
    var c := Settle(m, cur, first);
    if c != cur {
      StartedRegion(m, mfb, reg, cur);
      forall r: nat, i: nat, j: nat | m.Base(r) <= i < j < m.Base(r) + m.regionSize && j < |c| && c[j].used
        ensures c[i].used
      {
      }
    }
  }

  lemma StartedRegion(m: Mfb, mfb: MfbStruct, reg: nat, cur: seq<Slot>)
    requires m.Valid() && Filling(m, mfb, reg, cur) && cur != []
    ensures |cur| + (m.regionSize - Level(m, |cur|)) == m.Base(reg) + m.regionSize
  {
    StartedIsSof(m, mfb, reg, cur);
  }

  // The word is complete exactly when its last region cannot take the next block.
  lemma SettleFull(m: Mfb, mfb: MfbStruct, reg: nat, cur: seq<Slot>, first: bool)
    requires m.Valid() && Filling(m, mfb, reg, cur)
    ensures |Settle(m, cur, first)| == m.Slots() <==> reg + 1 == m.regions && RegionDone(m, mfb, reg, first)
  {
    hide Represents, PadsLast, Settle;
    SettleRepresents(m, mfb, reg, cur, first);
    SlotsPositive(m);
    var c := Settle(m, cur, first);
    TimesMonotone(reg + 1, m.regions, m.regionSize);
    if reg + 1 < m.regions { TimesMonotone(reg + 2, m.regions, m.regionSize); }
    if cur != [] { StartedIsSof(m, mfb, reg, cur); }
  }

  // Otherwise the next block goes to this region or, if it cannot take it, to the next one.
  lemma SettleReady(m: Mfb, mfb: MfbStruct, reg: nat, cur: seq<Slot>, first: bool)
    requires m.Valid() && Filling(m, mfb, reg, cur) && |Settle(m, cur, first)| != m.Slots()
    ensures RegionDone(m, mfb, reg, first) ==> reg + 1 < m.regions
    ensures Ready(m, mfb, if RegionDone(m, mfb, reg, first) then reg + 1 else reg, Settle(m, cur, first))
  {
    hide Represents, PadsLast;
    SettleRepresents(m, mfb, reg, cur, first);
    SettlePads(m, mfb, reg, cur, first);
    SettleFull(m, mfb, reg, cur, first);
    if cur != [] { StartedIsSof(m, mfb, reg, cur); }
  }

  // A filled and sent word is the image of all its slots.
  lemma FilledImage(m: Mfb, mfb: MfbStruct, filled: MfbStruct, c: seq<Slot>)
    requires Represents(m, mfb, c) && PadsLast(m, c) && ValidSlots(m, c) && |c| == m.Slots()
    requires filled.Shaped(m) && filled == mfb.(word := filled.word)
    requires forall r :: 0 <= r < m.regions ==> filled.word[r] == FillRegion(m, mfb.word[r])
    ensures Represents(m, filled, MarkUsed(c)) && Image(m, filled) == Encode(m, c, Flat(c))
  {
    hide PadsLast, Image, Encode, FillRegion, MarkUsed, ValidSlots, RepresentsRegion;
    forall r | 0 <= r < m.regions
      ensures RepresentsRegion(m, filled, MarkUsed(c), r)
    {
      FilledRegion(m, mfb, filled, c, r);
    }
    MarkUsedSize(c);
    ImageIsEncode(m, filled, MarkUsed(c));
    MarkUsedFlat(c);
    MarkUsedEncode(m, c);
  }

  lemma FilledRegion(m: Mfb, mfb: MfbStruct, filled: MfbStruct, c: seq<Slot>, r: nat)
    requires r < m.regions && mfb.Shaped(m) && RepresentsRegion(m, mfb, c, r) && PadsLast(m, c) && ValidSlots(m, c)
    requires |c| == m.Slots()
    requires filled.Shaped(m) && filled == mfb.(word := filled.word) && filled.word[r] == FillRegion(m, mfb.word[r])
    ensures RepresentsRegion(m, filled, MarkUsed(c), r)
  {
    hide PadsLast, FillRegion, MarkUsed, ValidSlots, UsedIn, RegionMark, RegionPos;
    FillRegionOf(m, c, r);
    MarkUsedRegion(m, c, r);
  }

  lemma MarkUsedSize(ws: seq<Slot>)
    ensures |MarkUsed(ws)| == |ws|
  {
  }
}
