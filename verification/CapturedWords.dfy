// What the recorder's word-level helpers see of a word whose register image was made from
// known slots.
module CapturedWords {
  import opened Numbers
  import opened Options
  import opened MfbStream
  import opened FrameRecorder

  // Slots of one full word with at most one mark of each kind per region.
  ghost predicate WordSlots(m: Mfb, ws: seq<Slot>) {
    && FullWord(m, ws)
    && SingleMarks(m, ws, Sof, m.regions)
    && SingleMarks(m, ws, Eof, m.regions)
  }

  ghost predicate FullWord(m: Mfb, ws: seq<Slot>) {
    m.Valid() && |ws| == m.Slots() && ValidSlots(m, ws)
  }

  lemma BaseBelow(m: Mfb, r: nat)
    requires r < m.regions
    ensures m.Base(r) + m.regionSize <= m.Slots()
  {
    TimesMonotone(r + 1, m.regions, m.regionSize);
  }

  function SlotBlocks(m: Mfb, ws: seq<Slot>, r: nat): (bs: seq<nat>)
    requires |ws| == m.Slots() && r < m.regions
    ensures |bs| == m.regionSize
    ensures forall b :: 0 <= b < m.regionSize ==> m.Base(r) + b < |ws| && bs[b] == Pack(8, ws[m.Base(r) + b].data)
  {
    BaseBelow(m, r);
    seq<nat>(m.regionSize, b requires 0 <= b < m.regionSize => Pack(8, ws[m.Base(r) + b].data))
  }

  function WordBlocksOf(m: Mfb, ws: seq<Slot>): (bs: seq<seq<nat>>)
    requires |ws| == m.Slots()
    ensures |bs| == m.regions && forall r :: 0 <= r < m.regions ==> bs[r] == SlotBlocks(m, ws, r)
  {
    seq(m.regions, r requires 0 <= r < m.regions => SlotBlocks(m, ws, r))
  }

  // The captured word of `ws` with starts before cs and ends before ce masked out.
  function WordOf(m: Mfb, ws: seq<Slot>, cs: nat, ce: nat): (w: CapturedWord)
    requires |ws| == m.Slots()
    ensures w.Shaped(m)
  {
    CapturedWord(WordBlocksOf(m, ws), PosReg(m, ws, Sof), PosReg(m, ws, Eof), VldReg(m, ws, cs, ce))
  }

  // ---------------------------------------------------------------- data

  lemma BytesFit(bs: seq<byte>)
    ensures Fits(8, bs)
  {
    assert Pow2(8) == 256 by { assert Pow2(4) == 16; }
  }

  lemma BusBlockOf(m: Mfb, ws: seq<Slot>, n: nat)
    requires ValidSlots(m, ws) && n < |ws|
    ensures BusBlock(m, Pack(8, Flat(ws)), n) == Pack(8, ws[n].data)
  {
    var f: seq<nat> := Flat(ws);
    BytesFit(Flat(ws));
    SlotData(m, ws, n, m.blockSize);
    PackShr(8, f, m.Bytes(n));
    PackLow(8, f[m.Bytes(n)..], m.blockSize);
    assert ws[n].data[..m.blockSize] == ws[n].data;
  }

  lemma LimbsHold(m: Mfb, bytes: seq<byte>)
    requires |bytes| <= m.Bytes(m.Slots())
    ensures Pack(32, Unpack(32, Pack(8, bytes), m.Transactions())) == Pack(8, bytes)
  {
    BytesFit(bytes);
    PackBound(8, bytes);
    TimesIs(|bytes|, 8);
    TimesIs(m.Transactions(), 32);
    Pow2Monotone(Times(|bytes|, 8), Times(m.Transactions(), 32));
    PackUnpack(32, Pack(8, bytes), m.Transactions());
  }

  lemma RegionBlocksOf(m: Mfb, ws: seq<Slot>, r: nat)
    requires FullWord(m, ws) && r < m.regions
    ensures RegionBlocks(m, Pack(8, Flat(ws)), r) == SlotBlocks(m, ws, r)
  {
    BaseBelow(m, r);
    forall b | 0 <= b < m.regionSize
      ensures BusBlock(m, Pack(8, Flat(ws)), m.Base(r) + b) == SlotBlocks(m, ws, r)[b]
    {
      BusBlockOf(m, ws, m.Base(r) + b);
    }
  }

  // Reading back the register image of a word gives its blocks and registers.
  lemma CaptureEncode(m: Mfb, ws: seq<Slot>)
    requires FullWord(m, ws)
    ensures Capture(m, Encode(m, ws, Flat(ws))) == WordOf(m, ws, 0, 0)
  {
    FlatLength(m, ws);
    LimbsHold(m, Flat(ws));
    forall r | 0 <= r < m.regions
      ensures RegionBlocks(m, Pack(8, Flat(ws)), r) == SlotBlocks(m, ws, r)
    {
      RegionBlocksOf(m, ws, r);
    }
    assert Blocks(m, Pack(8, Flat(ws))) == WordBlocksOf(m, ws);
  }

  lemma BlockBytesOf(m: Mfb, data: seq<byte>)
    requires |data| == m.blockSize
    ensures BlockBytes(m, Pack(8, data)) == data
  {
    BytesFit(data);
    forall i | 0 <= i < m.blockSize
      ensures Item(Pack(8, data), i) == data[i]
    {
      PackAt(8, data, i);
    }
  }

  function Packed(ws: seq<Slot>): (bs: seq<nat>)
    ensures |bs| == |ws| && forall i :: 0 <= i < |ws| ==> bs[i] == Pack(8, ws[i].data)
  {
    seq<nat>(|ws|, i requires 0 <= i < |ws| => Pack(8, ws[i].data))
  }

  lemma {:induction false} ListBytesOf(m: Mfb, ws: seq<Slot>)
    requires ValidSlots(m, ws)
    ensures ListBytes(m, Packed(ws)) == Flat(ws)
  {
    if ws != [] {
      var n := |ws| - 1;
      ListBytesOf(m, ws[..n]);
      BlockBytesOf(m, ws[n].data);
      assert Packed(ws)[..n] == Packed(ws[..n]);
    }
  }

  lemma {:induction false} WordBlocksUpTo(m: Mfb, ws: seq<Slot>, n: nat)
    requires |ws| == m.Slots() && n <= m.regions
    ensures m.Base(n) <= |ws| && WordBlocks(m, WordBlocksOf(m, ws)[..n]) == Packed(ws[..m.Base(n)])
  {
    TimesMonotone(n, m.regions, m.regionSize);
    if n > 0 {
      WordBlocksUpTo(m, ws, n - 1);
      var t := WordBlocksOf(m, ws)[..n];
      assert t[..n - 1] == WordBlocksOf(m, ws)[..n - 1];
      assert t[n - 1] == SlotBlocks(m, ws, n - 1);
      assert Packed(ws[..m.Base(n)]) == Packed(ws[..m.Base(n - 1)]) + SlotBlocks(m, ws, n - 1);
    }
  }

  lemma WordBytesOf(m: Mfb, ws: seq<Slot>, cs: nat, ce: nat)
    requires FullWord(m, ws)
    ensures WordBytes(m, WordOf(m, ws, cs, ce)) == Flat(ws)
  {
    WordBlocksUpTo(m, ws, m.regions);
    var bs := WordBlocksOf(m, ws);
    assert bs[..m.regions] == bs;
    assert ws[..m.Slots()] == ws;
    ListBytesOf(m, ws);
  }

  // ---------------------------------------------------------------- flags

  function Cursor(mark: Mark, cs: nat, ce: nat): nat {
    match mark
    case Sof => cs
    case Eof => ce
  }

  ghost predicate IsNext(ws: seq<Slot>, mark: Mark, c: nat, i: nat) {
    c <= i < |ws| && ws[i].Has(mark) && forall j :: c <= j < i ==> !ws[j].Has(mark)
  }

  ghost predicate NoneFrom(ws: seq<Slot>, mark: Mark, c: nat) {
    forall j :: c <= j < |ws| ==> !ws[j].Has(mark)
  }

  // Slot i is the p-th slot of region r.
  ghost predicate InRegion(m: Mfb, i: nat, r: nat, p: nat) {
    r < m.regions && p < m.regionSize && i == m.Base(r) + p
  }

  // Flags before the region of the next mark are down, that region's flag is up.
  lemma FlagsAt(m: Mfb, ws: seq<Slot>, mark: Mark, c: nat, i: nat, r: nat, p: nat)
    requires WordSlots(m, ws) && IsNext(ws, mark, c, i) && InRegion(m, i, r, p)
    ensures RegionMark(m, ws, mark, r) == Some(i)
    ensures Flags(m, ws, mark, c)[r] == 1
    ensures forall q :: 0 <= q < r ==> Flags(m, ws, mark, c)[q] == 0
  {
    SingleMarkAt(m, ws, mark, m.regions, r);
    forall q | 0 <= q < r
      ensures RegionFlag(m, ws, mark, c, q) == 0
    {
      TimesMonotone(q + 1, r, m.regionSize);
    }
  }

  lemma FieldOf(m: Mfb, ws: seq<Slot>, cs: nat, ce: nat, mark: Mark)
    ensures Field(m, VldReg(m, ws, cs, ce), mark) == Pack(1, Flags(m, ws, mark, Cursor(mark, cs, ce)))
  {
    var ds := VldBits(m, ws, cs, ce);
    var k := FieldShift(m, mark);
    BitsFit(ds);
    TimesOne(k);
    TimesOne(m.regions);
    PackShr(1, ds, k);
    PackLow(1, ds[k..], m.regions);
    assert ds[k..][..m.regions] == Flags(m, ws, mark, Cursor(mark, cs, ce));
  }

  lemma PosEntryOf(m: Mfb, ws: seq<Slot>, mark: Mark, r: nat)
    requires m.Valid() && ValidSlots(m, ws) && r < m.regions
    ensures PosEntry(PosReg(m, ws, mark), m.PosWidth(mark), r) == RegionPos(m, ws, mark, r)
  {
    PositionsFit(m, ws, mark);
    PackAt(m.PosWidth(mark), Positions(m, ws, mark), r);
  }

  // Detection reports the first unmasked mark of the word.
  lemma DetectOf(m: Mfb, ws: seq<Slot>, cs: nat, ce: nat, mark: Mark, i: nat, r: nat, p: nat)
    requires WordSlots(m, ws) && IsNext(ws, mark, Cursor(mark, cs, ce), i) && InRegion(m, i, r, p)
    ensures Detect(m, WordOf(m, ws, cs, ce), mark) == Found(true, r, MarkPos(m, ws, mark, i, p))
  {
    FieldOf(m, ws, cs, ce, mark);
    FlagsAt(m, ws, mark, Cursor(mark, cs, ce), i, r, p);
    LowestPack(Flags(m, ws, mark, Cursor(mark, cs, ce)), r);
    PosEntryOf(m, ws, mark, r);
  }

  lemma DetectNone(m: Mfb, ws: seq<Slot>, cs: nat, ce: nat, mark: Mark)
    requires |ws| == m.Slots() && NoneFrom(ws, mark, Cursor(mark, cs, ce))
    ensures Detect(m, WordOf(m, ws, cs, ce), mark) == Found(false, 0, 0)
  {
    FieldOf(m, ws, cs, ce, mark);
    NoBitsPack(Flags(m, ws, mark, Cursor(mark, cs, ce)));
  }

  lemma FlagsAfter(m: Mfb, ws: seq<Slot>, mark: Mark, c: nat, i: nat, r: nat, p: nat)
    requires WordSlots(m, ws) && IsNext(ws, mark, c, i) && InRegion(m, i, r, p)
    ensures Flags(m, ws, mark, i + 1) == Both(Flags(m, ws, mark, c), Hole(m, r))
  {
    FlagsAt(m, ws, mark, c, i, r, p);
    forall q | 0 <= q < m.regions
      ensures RegionFlag(m, ws, mark, i + 1, q) == if q == r then 0 else RegionFlag(m, ws, mark, c, q)
    {
      if q < r {
        TimesMonotone(q + 1, r, m.regionSize);
      } else if q > r {
        TimesMonotone(r + 1, q, m.regionSize);
      }
    }
  }

  lemma BothAppend(xs: seq<nat>, ys: seq<nat>, us: seq<nat>, vs: seq<nat>)
    requires |xs| == |us| && |ys| == |vs|
    ensures Both(xs + ys, us + vs) == Both(xs, us) + Both(ys, vs)
  {
  }

  lemma BothOnes(xs: seq<nat>)
    requires Bits(xs)
    ensures Both(xs, Ones(|xs|)) == xs
  {
  }

  lemma BothVld(n: nat, e: seq<nat>, s: seq<nat>, he: seq<nat>, hs: seq<nat>)
    requires |e| == |s| == |he| == |hs| == n
    ensures Both([1] + e + s, [1] + he + hs) == [1] + Both(e, he) + Both(s, hs)
  {
    BothAppend([1] + e, s, [1] + he, hs);
    BothAppend([1], e, [1], he);
  }

  // Masking the first mark moves the cursor past it.
  lemma RemoveOf(m: Mfb, ws: seq<Slot>, cs: nat, ce: nat, mark: Mark, i: nat, r: nat, p: nat)
    requires WordSlots(m, ws) && IsNext(ws, mark, Cursor(mark, cs, ce), i) && InRegion(m, i, r, p)
    ensures Remove(m, WordOf(m, ws, cs, ce), mark, r)
         == WordOf(m, ws, if mark == Sof then i + 1 else cs, if mark == Eof then i + 1 else ce)
  {
    HoleMaskBits(m, mark, r);
    AndBits(VldBits(m, ws, cs, ce), HoleBits(m, mark, r));
    FlagsAfter(m, ws, mark, Cursor(mark, cs, ce), i, r, p);
    var e, s := Flags(m, ws, Eof, ce), Flags(m, ws, Sof, cs);
    BothOnes(if mark == Eof then s else e);
    if mark == Eof {
      BothVld(m.regions, e, s, Hole(m, r), Ones(m.regions));
    } else {
      BothVld(m.regions, e, s, Ones(m.regions), Hole(m, r));
    }
  }

  // Cursors with no mark between them mask alike.
  lemma SameFlags(m: Mfb, ws: seq<Slot>, mark: Mark, c: nat, d: nat)
    requires c <= d && forall j :: c <= j < d && j < |ws| ==> !ws[j].Has(mark)
    ensures Flags(m, ws, mark, c) == Flags(m, ws, mark, d)
  {
  }

  // ---------------------------------------------------------------- serialization

  // Inside a word, serialization cuts the word's bytes.
  lemma SerializeCut(m: Mfb, w: CapturedWord, bytes: seq<byte>, rs: nat, ps: nat, re: nat, item: nat)
    requires w.Shaped(m) && WordBytes(m, w) == bytes
    requires ps < m.regionSize && re < m.regions && item < m.Bytes(m.regionSize)
    requires m.Bytes(m.Base(rs) + ps) <= m.Bytes(m.Base(re)) + item
    ensures m.Bytes(m.Base(re)) + item < |bytes|
    ensures Serialize(m, w, rs, ps, re, item)
      == Success(bytes[m.Bytes(m.Base(rs) + ps)..m.Bytes(m.Base(re)) + item + 1])
  {
    LastByte(m, re, item);
  }

  lemma SerializeTail(m: Mfb, w: CapturedWord, bytes: seq<byte>, rs: nat, ps: nat)
    requires m.Valid() && w.Shaped(m) && WordBytes(m, w) == bytes
    requires rs < m.regions && ps < m.regionSize
    ensures m.Bytes(m.regionSize) > 0 && m.Bytes(m.Base(rs) + ps) <= |bytes|
    ensures Serialize(m, w, rs, ps, m.regions - 1, m.Bytes(m.regionSize) - 1)
      == Success(bytes[m.Bytes(m.Base(rs) + ps)..])
  {
    RegionNonempty(m);
    BaseBelow(m, rs);
    TimesAdd(m.Base(m.regions - 1), m.regionSize, m.blockSize);
    TimesMonotone(m.Base(rs) + ps + 1, m.Slots(), m.blockSize);
    SerializeCut(m, w, bytes, rs, ps, m.regions - 1, m.Bytes(m.regionSize) - 1);
    var a := m.Bytes(m.Base(rs) + ps);
    assert bytes[a..|bytes|] == bytes[a..];
  }

  // Byte offset of an item of region r.
  lemma ItemOffset(m: Mfb, e: nat, re: nat, pe: nat, l: nat)
    requires InRegion(m, e, re, pe) && l < m.blockSize
    ensures m.Bytes(m.Base(re)) + (m.Bytes(pe) + l) == m.Bytes(e) + l
    ensures m.Bytes(pe) + l < m.Bytes(m.regionSize)
  {
    TimesAdd(m.Base(re), pe, m.blockSize);
    TimesMonotone(pe + 1, m.regionSize, m.blockSize);
  }

  // From the start of slot s to the last byte of the frame ending in slot e.
  lemma SerializeTo(m: Mfb, ws: seq<Slot>, cs: nat, ce: nat, s: nat, rs: nat, ps: nat, e: nat, re: nat, pe: nat)
    requires FullWord(m, ws) && s <= e < |ws| && ws[e].eof
    requires InRegion(m, s, rs, ps) && InRegion(m, e, re, pe)
    ensures Serialize(m, WordOf(m, ws, cs, ce), rs, ps, re, m.Bytes(pe) + ws[e].last) == Success(FrameBytes(ws, s, e))
  {
    hide WordOf, WordBytes, Flat;
    WordBytesOf(m, ws, cs, ce);
    ItemOffset(m, e, re, pe, ws[e].last);
    TimesMonotone(s, e, m.blockSize);
    SerializeCut(m, WordOf(m, ws, cs, ce), Flat(ws), rs, ps, re, m.Bytes(pe) + ws[e].last);
    FrameBytesAt(m, ws, s, e);
  }

  // From the start of slot s to the end of the word.
  lemma SerializeRest(m: Mfb, ws: seq<Slot>, cs: nat, ce: nat, s: nat, rs: nat, ps: nat)
    requires FullWord(m, ws) && s < |ws| && InRegion(m, s, rs, ps)
    ensures m.Bytes(m.regionSize) > 0
    ensures Serialize(m, WordOf(m, ws, cs, ce), rs, ps, m.regions - 1, m.Bytes(m.regionSize) - 1)
      == Success(Flat(ws[s..]))
  {
    hide WordOf, WordBytes, Flat;
    WordBytesOf(m, ws, cs, ce);
    SerializeTail(m, WordOf(m, ws, cs, ce), Flat(ws), rs, ps);
    FlatCut(m, ws, s);
  }

  lemma RegionNonempty(m: Mfb)
    requires m.Valid()
    ensures m.Bytes(m.regionSize) > 0
  {
    TimesMonotone(1, m.regionSize, m.blockSize);
    assert m.Bytes(1) == m.Bytes(0) + m.blockSize;
  }
}
