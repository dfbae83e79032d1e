// The MFB bus as a stream of block slots, what a conforming stream means (the frames it
// carries), and the register image of one bus word.
module MfbStream {
  import opened Numbers
  import opened Options

  // regions, region_size and block_size of the bus; items are bytes (item_width == 8).
  datatype Mfb = Mfb(regions: nat, regionSize: nat, blockSize: nat) {
    predicate Valid() {
      regions >= 1 && regionSize >= 1 && blockSize >= 1
    }

    // First block slot of region r.
    function Base(r: nat): nat {
      Times(r, regionSize)
    }

    // Block slots in one word.
    function Slots(): nat {
      Base(regions)
    }

    // Bytes in n blocks.
    function Bytes(n: nat): nat {
      Times(n, blockSize)
    }

    // 32-bit transactions per word: ceil(bytes / 4).
    function Transactions(): nat {
      (Bytes(Slots()) + 3) / 4
    }

    // Bits of one entry of the SOF_POS / EOF_POS registers.
    function PosWidth(mark: Mark): nat {
      match mark
      case Sof => Width(regionSize)
      case Eof => Width(Bytes(regionSize))
    }
  }

  // ceil(max(1, log2(n))): the least width of at least one bit that counts up to n - 1.
  function Width(n: nat): (w: nat)
    ensures w >= 1 && n <= Pow2(w) && (w == 1 || Pow2(w - 1) < n)
  {
    if n <= 2 then
      assert Pow2(1) == 2 * Pow2(0);
      1
    else
      1 + Width((n + 1) / 2)
  }

  // Start-of-frame and end-of-frame flags.
  datatype Mark = Sof | Eof

  // One block slot of the bus. `last` is the offset of the frame's final byte in a slot
  // with `eof`; a slot that carries no frame block has used == false.
  datatype Slot = Slot(data: seq<byte>, sof: bool, eof: bool, last: nat, used: bool) {
    predicate Has(mark: Mark) {
      match mark
      case Sof => sof
      case Eof => eof
    }

    predicate Valid(m: Mfb) {
      |data| == m.blockSize && (eof ==> last < m.blockSize)
    }
  }

  function PadSlot(m: Mfb): Slot {
    Slot(Repeat(0, m.blockSize), false, false, 0, false)
  }

  ghost predicate ValidSlots(m: Mfb, st: seq<Slot>) {
    forall i :: 0 <= i < |st| ==> st[i].Valid(m)
  }

  // ---------------------------------------------------------------- bytes of slots

  function Flat(st: seq<Slot>): seq<byte> {
    if st == [] then [] else Flat(st[..|st| - 1]) + st[|st| - 1].data
  }

  lemma {:induction false} FlatAppend(xs: seq<Slot>, ys: seq<Slot>)
    ensures Flat(xs + ys) == Flat(xs) + Flat(ys)
  {
    if ys == [] {
      assert xs + ys == xs;
    } else {
      var n := |ys| - 1;
      assert (xs + ys)[..|xs| + n] == xs + ys[..n];
      FlatAppend(xs, ys[..n]);
    }
  }

  lemma {:induction false} FlatLength(m: Mfb, st: seq<Slot>)
    requires ValidSlots(m, st)
    ensures |Flat(st)| == m.Bytes(|st|)
  {
    if st != [] { FlatLength(m, st[..|st| - 1]); }
  }

  // Cutting the bytes of a slot sequence at a slot boundary.
  lemma FlatCut(m: Mfb, st: seq<Slot>, k: nat)
    requires ValidSlots(m, st) && k <= |st|
    ensures m.Bytes(k) <= |Flat(st)|
    ensures Flat(st)[..m.Bytes(k)] == Flat(st[..k])
    ensures Flat(st)[m.Bytes(k)..] == Flat(st[k..])
  {
    assert st == st[..k] + st[k..];
    FlatAppend(st[..k], st[k..]);
    FlatLength(m, st[..k]);
  }

  // The bytes from the start of slot s up to the last byte of a frame that ends in slot e.
  function FrameBytes(st: seq<Slot>, s: nat, e: nat): seq<byte>
    requires s <= e < |st| && st[e].last < |st[e].data|
  {
    Flat(st[s..e]) + st[e].data[..st[e].last + 1]
  }

  lemma Window<T>(f: seq<T>, a: nat, e: nat, l: nat)
    requires a <= e && e + l <= |f|
    ensures f[a..e + l] == f[..e][a..] + f[e..][..l]
  {
  }

  lemma SlotData(m: Mfb, st: seq<Slot>, e: nat, l: nat)
    requires ValidSlots(m, st) && e < |st| && l <= m.blockSize
    ensures m.Bytes(e) + l <= |Flat(st)|
    ensures Flat(st)[m.Bytes(e)..][..l] == st[e].data[..l]
  {
    FlatCut(m, st, e);
    var t := st[e..];
    FlatCut(m, t, 1);
    assert m.Bytes(1) == m.Bytes(0) + m.blockSize;
    assert Flat(t[..1]) == t[0].data by {
      assert t[..1][..0] == [];
    }
    assert Flat(t)[..l] == Flat(t)[..m.blockSize][..l];
  }

  lemma FrameBytesAt(m: Mfb, st: seq<Slot>, s: nat, e: nat)
    requires ValidSlots(m, st) && s <= e < |st| && st[e].eof
    ensures m.Bytes(s) <= m.Bytes(e) + st[e].last + 1 <= |Flat(st)|
    ensures FrameBytes(st, s, e) == Flat(st)[m.Bytes(s)..m.Bytes(e) + st[e].last + 1]
  {
    hide Flat;
    var l := st[e].last + 1;
    SlotData(m, st, e, l);
    FlatCut(m, st, e);
    FlatCut(m, st[..e], s);
    assert st[..e][s..] == st[s..e];
    TimesMonotone(s, e, m.blockSize);
    Window(Flat(st), m.Bytes(s), m.Bytes(e), l);
  }

  // ---------------------------------------------------------------- reference parser

  // The bytes of the open frame, if any, and the frames completed so far.
  datatype Progress = Progress(open: Option<seq<byte>>, frames: seq<seq<byte>>)

  const START := Progress(None, [])

  function Step(p: Progress, s: Slot): Progress
    requires s.eof ==> s.last < |s.data|
  {
    var open := if s.sof then Some([]) else p.open;
    match open
    case None => p
    case Some(bytes) =>
      if s.eof then Progress(None, p.frames + [bytes + s.data[..s.last + 1]])
      else Progress(Some(bytes + s.data), p.frames)
  }

  // What a sequence of slots adds to the progress p.
  function Parse(m: Mfb, p: Progress, st: seq<Slot>): Progress
    requires ValidSlots(m, st)
  {
    if st == [] then p else Step(Parse(m, p, st[..|st| - 1]), st[|st| - 1])
  }

  lemma {:induction false} ParseAppend(m: Mfb, p: Progress, xs: seq<Slot>, ys: seq<Slot>)
    requires ValidSlots(m, xs) && ValidSlots(m, ys)
    ensures Parse(m, p, xs + ys) == Parse(m, Parse(m, p, xs), ys)
  {
    if ys == [] {
      assert xs + ys == xs;
    } else {
      var n := |ys| - 1;
      assert (xs + ys)[..|xs| + n] == xs + ys[..n];
      ParseAppend(m, p, xs, ys[..n]);
    }
  }

  // A frame starts only when none is open, and ends only when one is.
  ghost predicate Alternating(m: Mfb, p: Progress, st: seq<Slot>)
    requires ValidSlots(m, st)
  {
    && (forall i :: 0 <= i < |st| && st[i].sof ==> Parse(m, p, st[..i]).open.None?)
    && (forall i :: 0 <= i < |st| && st[i].eof ==> st[i].sof || Parse(m, p, st[..i]).open.Some?)
  }

  // All marks of one kind in region r fall on one slot.
  ghost predicate SingleMark(m: Mfb, st: seq<Slot>, mark: Mark, r: nat) {
    forall i :: m.Base(r) <= i < m.Base(r) + m.regionSize && i < |st| && st[i].Has(mark) ==>
      RegionMark(m, st, mark, r) == Some(i)
  }

  // In the first n regions, two marks of one kind never share a region.
  ghost predicate SingleMarks(m: Mfb, st: seq<Slot>, mark: Mark, n: nat) {
    n == 0 || (SingleMarks(m, st, mark, n - 1) && SingleMark(m, st, mark, n - 1))
  }

  lemma {:induction false} SingleMarkAt(m: Mfb, st: seq<Slot>, mark: Mark, n: nat, r: nat)
    requires SingleMarks(m, st, mark, n) && r < n
    ensures SingleMark(m, st, mark, r)
    decreases n
  {
    if r < n - 1 { SingleMarkAt(m, st, mark, n - 1, r); }
  }

  // ---------------------------------------------------------------- one word's registers

  // One bus word as it crosses the register interface: 32-bit limbs, low limb first, the
  // two position registers and SOF_VEC | EOF_VEC | VLD.
  datatype BusWord = BusWord(limbs: seq<nat>, sofPos: nat, eofPos: nat, vld: nat)

  // The last slot in [lo, hi) with the given mark; slots past the end carry none.
  function LastMark(ws: seq<Slot>, mark: Mark, lo: nat, hi: nat): (r: Option<nat>)
    requires lo <= hi
    ensures r.Some? ==> lo <= r.value < hi && r.value < |ws| && ws[r.value].Has(mark)
    ensures r.Some? ==> forall i :: r.value < i < hi && i < |ws| ==> !ws[i].Has(mark)
    ensures r.None? ==> forall i :: lo <= i < hi && i < |ws| ==> !ws[i].Has(mark)
    decreases hi
  {
    if lo == hi then None
    else if hi - 1 < |ws| && ws[hi - 1].Has(mark) then Some(hi - 1)
    else LastMark(ws, mark, lo, hi - 1)
  }

  function RegionMark(m: Mfb, ws: seq<Slot>, mark: Mark, r: nat): (o: Option<nat>)
    ensures o.Some? ==> m.Base(r) <= o.value < m.Base(r) + m.regionSize && o.value < |ws| && ws[o.value].Has(mark)
    ensures o.None? ==> forall i :: m.Base(r) <= i < m.Base(r) + m.regionSize && i < |ws| ==> !ws[i].Has(mark)
  {
    LastMark(ws, mark, m.Base(r), m.Base(r) + m.regionSize)
  }

  // The position entry of region r: the start block, or the byte offset of the end.
  function RegionPos(m: Mfb, ws: seq<Slot>, mark: Mark, r: nat): nat {
    match RegionMark(m, ws, mark, r)
    case None => 0
    case Some(i) => MarkPos(m, ws, mark, i, i - m.Base(r))
  }

  // The position entry of a mark in slot i, the p-th slot of its region.
  function MarkPos(m: Mfb, ws: seq<Slot>, mark: Mark, i: nat, p: nat): nat
    requires i < |ws|
  {
    match mark
    case Sof => p
    case Eof => m.Bytes(p) + ws[i].last
  }

  // The flag of region r, seen from slot c on.
  function RegionFlag(m: Mfb, ws: seq<Slot>, mark: Mark, c: nat, r: nat): nat {
    match RegionMark(m, ws, mark, r)
    case None => 0
    case Some(i) => if i >= c then 1 else 0
  }

  function Flags(m: Mfb, ws: seq<Slot>, mark: Mark, c: nat): (ds: seq<nat>)
    ensures |ds| == m.regions && Bits(ds)
    ensures forall r :: 0 <= r < m.regions ==> ds[r] == RegionFlag(m, ws, mark, c, r)
  {
    seq<nat>(m.regions, r requires 0 <= r < m.regions => RegionFlag(m, ws, mark, c, r))
  }

  function Positions(m: Mfb, ws: seq<Slot>, mark: Mark): (ds: seq<nat>)
    ensures |ds| == m.regions
    ensures forall r :: 0 <= r < m.regions ==> ds[r] == RegionPos(m, ws, mark, r)
  {
    seq<nat>(m.regions, r requires 0 <= r < m.regions => RegionPos(m, ws, mark, r))
  }

  function PosReg(m: Mfb, ws: seq<Slot>, mark: Mark): nat {
    Pack(m.PosWidth(mark), Positions(m, ws, mark))
  }

  // VLD register bits, least significant first, with starts before slot cs and ends
  // before slot ce masked out.
  function VldBits(m: Mfb, ws: seq<Slot>, cs: nat, ce: nat): (ds: seq<nat>)
    ensures |ds| == 2 * m.regions + 1 && Bits(ds)
  {
    [1] + Flags(m, ws, Eof, ce) + Flags(m, ws, Sof, cs)
  }

  function VldReg(m: Mfb, ws: seq<Slot>, cs: nat, ce: nat): nat {
    Pack(1, VldBits(m, ws, cs, ce))
  }

  // The register image of the slots `ws` whose data bus carries `bytes`.
  function Encode(m: Mfb, ws: seq<Slot>, bytes: seq<byte>): BusWord {
    BusWord(Unpack(32, Pack(8, bytes), m.Transactions()), PosReg(m, ws, Sof), PosReg(m, ws, Eof), VldReg(m, ws, 0, 0))
  }

  lemma PositionsFit(m: Mfb, ws: seq<Slot>, mark: Mark)
    requires m.Valid() && ValidSlots(m, ws)
    ensures Fits(m.PosWidth(mark), Positions(m, ws, mark))
  {
    forall r | 0 <= r < m.regions
      ensures RegionPos(m, ws, mark, r) < Pow2(m.PosWidth(mark))
    {
      var o := RegionMark(m, ws, mark, r);
      if o.Some? {
        hide Pow2;
        TimesMonotone(o.value - m.Base(r) + 1, m.regionSize, m.blockSize);
      }
    }
  }
}
