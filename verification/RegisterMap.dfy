// The registers of a written word in ordinary arithmetic: which bits carry what. The widths
// are those the hardware uses, stated without the functions that compute them.
module RegisterMap {
  import opened Numbers
  import opened Options
  import opened MfbStream
  import opened CapturedWords
  import opened FrameLayout
  import opened LastWordGap

  // Bits r * w to (r + 1) * w of a register, and bit i.
  function FieldAt(reg: nat, w: nat, r: nat): nat {
    reg / Pow2(r * w) % Pow2(w)
  }

  predicate BitAt(reg: nat, i: nat) {
    reg / Pow2(i) % 2 == 1
  }

  // The least width of at least one bit that tells n values apart.
  ghost predicate LeastWidth(w: nat, n: int) {
    w >= 1 && n <= Pow2(w) && forall v :: 1 <= v < w ==> Pow2(v) < n
  }

  // An entry of the start register tells the blocks of a region apart, one of the end
  // register its bytes.
  lemma EntryWidths(m: Mfb)
    requires m.Valid()
    ensures LeastWidth(m.PosWidth(Sof), m.regionSize)
    ensures LeastWidth(m.PosWidth(Eof), m.regionSize * m.blockSize)
  {
    TimesIs(m.regionSize, m.blockSize);
    LeastFrom(m.PosWidth(Sof), m.regionSize);
    LeastFrom(m.PosWidth(Eof), m.regionSize * m.blockSize);
  }

  lemma LeastFrom(w: nat, n: int)
    requires w >= 1 && n <= Pow2(w) && (w == 1 || Pow2(w - 1) < n)
    ensures LeastWidth(w, n)
  {
    hide Pow2;
    forall v | 1 <= v < w
      ensures Pow2(v) < n
    {
      Pow2Monotone(v, w - 1);
    }
  }

  // Slot i is block p of region r, and no later slot of the region has the mark.
  ghost predicate LastInRegion(m: Mfb, ws: seq<Slot>, mark: Mark, i: nat, r: nat, p: nat) {
    && i < |ws| && InRegion(m, i, r, p) && ws[i].Has(mark)
    && forall j :: i < j < |ws| && j < i - p + m.regionSize ==> !ws[j].Has(mark)
  }

  ghost predicate HasIn(m: Mfb, ws: seq<Slot>, mark: Mark, r: nat) {
    exists i: nat, p: nat :: i < |ws| && InRegion(m, i, r, p) && ws[i].Has(mark)
  }

  // Entry r of a position register: the block in which a frame starts, or the offset of a
  // frame's last byte in its region.
  ghost predicate PositionBits(m: Mfb, ws: seq<Slot>, mark: Mark, w: nat, reg: nat) {
    forall i: nat, r: nat, p: nat :: LastInRegion(m, ws, mark, i, r, p) ==>
      FieldAt(reg, w, r) == match mark case Sof => p case Eof => p * m.blockSize + ws[i].last
  }

  // One valid bit, then the flags of the regions with an end, then those with a start.
  ghost predicate FlagRegister(m: Mfb, ws: seq<Slot>, vld: nat) {
    && vld % 2 == 1 && vld < Pow2(2 * m.regions + 1)
    && (forall r :: 0 <= r < m.regions ==> (BitAt(vld, 1 + r) <==> HasIn(m, ws, Eof, r)))
    && (forall r :: 0 <= r < m.regions ==> (BitAt(vld, 1 + m.regions + r) <==> HasIn(m, ws, Sof, r)))
  }

  // The bytes, first one lowest, in as few 32-bit transactions as a whole word takes.
  ghost predicate DataTransactions(m: Mfb, bytes: seq<byte>, limbs: seq<nat>) {
    && 4 * |limbs| >= m.regions * m.regionSize * m.blockSize > 4 * (|limbs| - 1)
    && exists bus: nat :: Joins(bus, bytes) && Cuts(bus, limbs)
  }

  ghost predicate Joins(bus: nat, bytes: seq<byte>) {
    bus < Pow2(8 * |bytes|) && forall n :: 0 <= n < |bytes| ==> FieldAt(bus, 8, n) == bytes[n]
  }

  ghost predicate Cuts(bus: nat, limbs: seq<nat>) {
    forall k :: 0 <= k < |limbs| ==> limbs[k] == FieldAt(bus, 32, k)
  }

  ghost predicate Carries(m: Mfb, ws: seq<Slot>, bytes: seq<byte>, bw: BusWord) {
    && (exists w: nat :: LeastWidth(w, m.regionSize) && PositionBits(m, ws, Sof, w, bw.sofPos))
    && (exists w: nat :: LeastWidth(w, m.regionSize * m.blockSize) && PositionBits(m, ws, Eof, w, bw.eofPos))
    && FlagRegister(m, ws, bw.vld) && DataTransactions(m, bytes, bw.limbs)
  }

  lemma FieldAtIs(reg: nat, w: nat, r: nat)
    ensures FieldAt(reg, w, r) == Low(Shr(reg, Times(r, w)), w)
  {
    FieldIs(reg, w, r);
  }

  lemma BitAtIs(reg: nat, i: nat)
    ensures BitAt(reg, i) <==> Bit(reg, i)
  {
    BitIs(reg, i);
  }

  // ---------------------------------------------------------------- positions

  lemma {:induction false} LastMarkAt(ws: seq<Slot>, mark: Mark, lo: nat, hi: nat, i: nat)
    requires lo <= i < hi && i < |ws| && ws[i].Has(mark) && forall j :: i < j < hi && j < |ws| ==> !ws[j].Has(mark)
    ensures LastMark(ws, mark, lo, hi) == Some(i)
    decreases hi
  {
    if i < hi - 1 { LastMarkAt(ws, mark, lo, hi - 1, i); }
  }

  lemma PositionsAre(m: Mfb, ws: seq<Slot>, mark: Mark)
    requires m.Valid() && ValidSlots(m, ws)
    ensures PositionBits(m, ws, mark, m.PosWidth(mark), PosReg(m, ws, mark))
  {
    hide Pow2, FieldAt, Pack;
    var w := m.PosWidth(mark);
    forall i: nat, r: nat, p: nat | LastInRegion(m, ws, mark, i, r, p)
      ensures FieldAt(PosReg(m, ws, mark), w, r) == match mark case Sof => p case Eof => p * m.blockSize + ws[i].last
    {
      LastMarkAt(ws, mark, m.Base(r), m.Base(r) + m.regionSize, i);
      PositionsFit(m, ws, mark);
      PackAt(w, Positions(m, ws, mark), r);
      FieldAtIs(PosReg(m, ws, mark), w, r);
      TimesIs(p, m.blockSize);
    }
  }

  // ---------------------------------------------------------------- flags

  lemma FlagIs(m: Mfb, ws: seq<Slot>, mark: Mark, r: nat)
    requires r < m.regions
    ensures Flags(m, ws, mark, 0)[r] == 1 <==> HasIn(m, ws, mark, r)
  {
    var o := RegionMark(m, ws, mark, r);
    if o.Some? { assert InRegion(m, o.value, r, o.value - m.Base(r)); }
  }

  lemma FlagsAre(m: Mfb, ws: seq<Slot>)
    requires m.Valid()
    ensures FlagRegister(m, ws, VldReg(m, ws, 0, 0))
  {
    hide Pow2, HasIn, Flags, Pack, BitAt, VldBits;
    BitsAre(VldBits(m, ws, 0, 0));
    FirstBit(m, ws);
    forall r | 0 <= r < m.regions
      ensures BitAt(VldReg(m, ws, 0, 0), 1 + r) <==> HasIn(m, ws, Eof, r)
      ensures BitAt(VldReg(m, ws, 0, 0), 1 + m.regions + r) <==> HasIn(m, ws, Sof, r)
    {
      FlagIs(m, ws, Eof, r);
      FlagIs(m, ws, Sof, r);
      RegionBits(m, ws, r);
    }
  }

  lemma FirstBit(m: Mfb, ws: seq<Slot>)
    ensures |VldBits(m, ws, 0, 0)| == 2 * m.regions + 1 && VldBits(m, ws, 0, 0)[0] == 1
  {
    hide Flags;
  }

  lemma RegionBits(m: Mfb, ws: seq<Slot>, r: nat)
    requires r < m.regions
    ensures VldBits(m, ws, 0, 0)[1 + r] == Flags(m, ws, Eof, 0)[r]
    ensures VldBits(m, ws, 0, 0)[1 + m.regions + r] == Flags(m, ws, Sof, 0)[r]
  {
    hide Flags;
  }

  lemma BitsAre(ds: seq<nat>)
    requires ds != [] && Bits(ds)
    ensures Pack(1, ds) % 2 == ds[0] && Pack(1, ds) < Pow2(|ds|)
    ensures forall i :: 0 <= i < |ds| ==> (BitAt(Pack(1, ds), i) <==> ds[i] == 1)
  {
    hide Pow2, BitAt, Pack;
    forall i | 0 <= i < |ds|
      ensures BitAt(Pack(1, ds), i) <==> ds[i] == 1
    {
      BitPack(ds, i);
      BitAtIs(Pack(1, ds), i);
    }
    PackBit(ds);
    BitsFit(ds);
    PackBound(1, ds);
    TimesIs(|ds|, 1);
  }

  // ---------------------------------------------------------------- data

  lemma TransactionCount(m: Mfb)
    requires m.Valid()
    ensures 4 * m.Transactions() >= m.regions * m.regionSize * m.blockSize > 4 * (m.Transactions() - 1)
  {
    TimesIs(m.regions, m.regionSize);
    TimesIs(m.Slots(), m.blockSize);
  }

  lemma DataIs(m: Mfb, bytes: seq<byte>)
    requires m.Valid()
    ensures DataTransactions(m, bytes, Unpack(32, Pack(8, bytes), m.Transactions()))
  {
    hide Joins, Cuts, Unpack, Pack;
    TransactionCount(m);
    BytesJoin(bytes);
    LimbsCut(Pack(8, bytes), m.Transactions());
  }

  lemma BytesJoin(bytes: seq<byte>)
    ensures Joins(Pack(8, bytes), bytes)
  {
    hide Pow2, Pack, FieldAt;
    BytesFit(bytes);
    PackBound(8, bytes);
    TimesIs(|bytes|, 8);
    forall n | 0 <= n < |bytes|
      ensures FieldAt(Pack(8, bytes), 8, n) == bytes[n]
    {
      PackAt(8, bytes, n);
      FieldAtIs(Pack(8, bytes), 8, n);
    }
  }

  lemma LimbsCut(bus: nat, t: nat)
    ensures Cuts(bus, Unpack(32, bus, t))
  {
    hide Pow2, FieldAt;
    forall k | 0 <= k < t
      ensures Unpack(32, bus, t)[k] == FieldAt(bus, 32, k)
    {
      UnpackAt(32, bus, t, k);
      FieldAtIs(bus, 32, k);
    }
  }

  // ---------------------------------------------------------------- the words of a run

  lemma EncodedCarries(m: Mfb, ws: seq<Slot>, bytes: seq<byte>)
    requires m.Valid() && ValidSlots(m, ws)
    ensures Carries(m, ws, bytes, Encode(m, ws, bytes))
  {
    hide LeastWidth, PositionBits, FlagRegister, DataTransactions, Pack, Unpack, PosReg, VldReg;
    EntryWidths(m);
    PositionsAre(m, ws, Sof);
    PositionsAre(m, ws, Eof);
    FlagsAre(m, ws);
    DataIs(m, bytes);
  }

  // Every word the player writes for a layout shows its slots to the hardware: the full words
  // as they are, and the last one with the bytes of its blocks in use.
  lemma EmittedCarries(m: Mfb, lay: Layout, k: nat)
    requires GoodLayout(m, lay) && k <= |lay.sent|
    ensures |Emitted(m, lay)| == |lay.sent| + 1
    ensures k < |lay.sent| ==> Carries(m, lay.sent[k], Flat(lay.sent[k]), Emitted(m, lay)[k])
    ensures k == |lay.sent| ==> Carries(m, lay.cur, UsedBytes(lay.cur), Emitted(m, lay)[k])
  {
    hide Carries, Encode, UsedBytes, Flat;
    LayoutParts(m, lay);
    EncodedCarries(m, if k < |lay.sent| then lay.sent[k] else lay.cur,
      if k < |lay.sent| then Flat(lay.sent[k]) else UsedBytes(lay.cur));
  }
}
