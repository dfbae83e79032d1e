// The frame recorder: how captured bus words are turned back into frames.
module FrameRecorder {
  import opened Numbers
  import opened Options
  import opened MfbStream

  datatype Error = NoStartDetected | SerializationError

  datatype Result<+T> = Success(value: T) | Failure(error: Error) {
    predicate IsFailure() { Failure? }
    function PropagateFailure<U>(): Result<U> requires Failure? { Failure(error) }
    function Extract(): T requires Success? { value }
  }

  // One captured word: blocks as integers, per region, and the three registers.
  datatype CapturedWord = CapturedWord(blocks: seq<seq<nat>>, sofPos: nat, eofPos: nat, vld: nat) {
    function Pos(mark: Mark): nat {
      match mark
      case Sof => sofPos
      case Eof => eofPos
    }

    predicate Shaped(m: Mfb) {
      |blocks| == m.regions && forall r :: 0 <= r < m.regions ==> |blocks[r]| == m.regionSize
    }
  }

  // ---------------------------------------------------------------- reading a word

  // Block n of the bus value: shifted down and masked to the block width.
  function BusBlock(m: Mfb, bus: nat, n: nat): nat {
    Low(Shr(bus, Times(m.Bytes(n), 8)), Times(m.blockSize, 8))
  }

  function RegionBlocks(m: Mfb, bus: nat, r: nat): (bs: seq<nat>)
    ensures |bs| == m.regionSize
    ensures forall b :: 0 <= b < m.regionSize ==> bs[b] == BusBlock(m, bus, m.Base(r) + b)
  {
    seq<nat>(m.regionSize, b requires 0 <= b => BusBlock(m, bus, m.Base(r) + b))
  }

  function Blocks(m: Mfb, bus: nat): (bs: seq<seq<nat>>)
    ensures |bs| == m.regions
    ensures forall r :: 0 <= r < m.regions ==> bs[r] == RegionBlocks(m, bus, r)
  {
    seq(m.regions, r requires 0 <= r => RegionBlocks(m, bus, r))
  }

  function Capture(m: Mfb, bw: BusWord): (w: CapturedWord)
    ensures w.Shaped(m)
  {
    CapturedWord(Blocks(m, Pack(32, bw.limbs)), bw.sofPos, bw.eofPos, bw.vld)
  }

  // ---------------------------------------------------------------- detection and masking

  function FieldShift(m: Mfb, mark: Mark): nat {
    match mark
    case Sof => 1 + m.regions
    case Eof => 1
  }

  // The flag vector of one kind: VLD shifted down and masked.
  function Field(m: Mfb, vld: nat, mark: Mark): nat {
    Low(Shr(vld, FieldShift(m, mark)), m.regions)
  }

  // Entry reg of a position register with entries of the given width.
  function PosEntry(pos: nat, width: nat, reg: nat): nat {
    Low(Shr(pos, Times(reg, width)), width)
  }

  datatype Found = Found(detected: bool, reg: nat, pos: nat)

  // _det_start and _det_end: the first flagged region and its position entry.
  function Detect(m: Mfb, w: CapturedWord, mark: Mark): (f: Found)
    ensures f.detected <==> Field(m, w.vld, mark) != 0
    ensures f.detected ==> f.reg < m.regions
  {
    var vld := Field(m, w.vld, mark);
    if vld == 0 then Found(false, 0, 0)
    else
      var reg := LowestSet(vld);
      FieldBit(m, w.vld, mark);
      Found(true, reg, PosEntry(w.Pos(mark), m.PosWidth(mark), reg))
  }

  lemma FieldBit(m: Mfb, vld: nat, mark: Mark)
    requires Field(m, vld, mark) != 0
    ensures LowestSet(Field(m, vld, mark)) < m.regions
    ensures Bit(vld, FieldShift(m, mark) + LowestSet(Field(m, vld, mark)))
  {
    var i := LowestSet(Field(m, vld, mark));
    BitLowest(Field(m, vld, mark));
    BitLow(Shr(vld, FieldShift(m, mark)), m.regions, i);
    BitShr(vld, FieldShift(m, mark), i);
  }

  // All regions but one: list('1' * regions) with one '0'.
  function Hole(m: Mfb, reg: nat): (ds: seq<nat>)
    ensures |ds| == m.regions && Bits(ds)
    ensures forall r :: 0 <= r < m.regions ==> ds[r] == if r == reg then 0 else 1
  {
    seq<nat>(m.regions, r requires 0 <= r < m.regions => if r == reg then 0 else 1)
  }

  // The mask that clears one flag: SOF mask << (regions + 1) | EOF mask << 1 | 1.
  function HoleMask(m: Mfb, mark: Mark, reg: nat): nat {
    var sof := if mark == Sof then Hole(m, reg) else Ones(m.regions);
    var eof := if mark == Eof then Hole(m, reg) else Ones(m.regions);
    PackVld(m, eof, sof)
  }

  // sof << (regions + 1) | eof << 1 | 1
  function PackVld(m: Mfb, eof: seq<nat>, sof: seq<nat>): nat {
    Or(Or(Shl(Pack(1, sof), m.regions + 1), Shl(Pack(1, eof), 1)), 1)
  }

  // _remove_sop and _remove_eop.
  function Remove(m: Mfb, w: CapturedWord, mark: Mark, reg: nat): CapturedWord {
    w.(vld := And(w.vld, HoleMask(m, mark, reg)))
  }

  lemma {:induction false} TimesOne(n: nat)
    ensures Times(n, 1) == n
  {
    if n > 0 { TimesOne(n - 1); }
  }

  lemma PackVldSum(n: nat, x: nat, y: nat)
    requires x < Pow2(n)
    ensures Or(Or(Shl(y, n + 1), Shl(x, 1)), 1) == 1 + 2 * (x + Shl(y, n))
  {
    hide Or;
    var z := x + Shl(y, n);
    assert Shl(x, 1) == 2 * Shl(x, 0) && Shl(z, 1) == 2 * Shl(z, 0);
    OrShl(y, n + 1, Shl(x, 1));
    assert Pow2(1) == 2 * Pow2(0);
    OrShl(z, 1, 1);
  }

  lemma PackVldBits(m: Mfb, eof: seq<nat>, sof: seq<nat>)
    requires |eof| == m.regions && |sof| == m.regions && Bits(eof) && Bits(sof)
    ensures PackVld(m, eof, sof) == Pack(1, [1] + eof + sof)
  {
    hide Or, Pack;
    BitsFit(eof);
    PackBound(1, eof);
    TimesOne(m.regions);
    PackVldSum(m.regions, Pack(1, eof), Pack(1, sof));
    PackAppend(1, eof, sof);
    PackBit([1] + eof + sof);
    assert ([1] + eof + sof)[1..] == eof + sof;
  }

  function HoleBits(m: Mfb, mark: Mark, reg: nat): (ds: seq<nat>)
    ensures |ds| == 2 * m.regions + 1 && Bits(ds)
  {
    var eof := if mark == Eof then Hole(m, reg) else Ones(m.regions);
    var sof := if mark == Sof then Hole(m, reg) else Ones(m.regions);
    [1] + eof + sof
  }

  lemma HoleMaskBits(m: Mfb, mark: Mark, reg: nat)
    ensures HoleMask(m, mark, reg) == Pack(1, HoleBits(m, mark, reg))
  {
    var eof := if mark == Eof then Hole(m, reg) else Ones(m.regions);
    var sof := if mark == Sof then Hole(m, reg) else Ones(m.regions);
    PackVldBits(m, eof, sof);
  }

  // Clearing a detected flag makes the VLD register smaller.
  lemma RemoveDrops(m: Mfb, w: CapturedWord, mark: Mark)
    requires Detect(m, w, mark).detected
    ensures Remove(m, w, mark, Detect(m, w, mark).reg).vld < w.vld
  {
    var reg := Detect(m, w, mark).reg;
    FieldBit(m, w.vld, mark);
    HoleMaskBits(m, mark, reg);
    BitPack(HoleBits(m, mark, reg), FieldShift(m, mark) + reg);
    AndDrops(w.vld, HoleMask(m, mark, reg), FieldShift(m, mark) + reg);
  }

  // ---------------------------------------------------------------- serialization

  // _get_item for 8-bit items.
  function Item(block: nat, i: nat): (b: byte) {
    Split(Shr(block, Times(i, 8)), 8);
    assert Pow2(8) == 256 by { assert Pow2(4) == 16; }
    Low(Shr(block, Times(i, 8)), 8)
  }

  function BlockBytes(m: Mfb, block: nat): (bs: seq<byte>)
    ensures |bs| == m.blockSize && forall i :: 0 <= i < m.blockSize ==> bs[i] == Item(block, i)
  {
    seq(m.blockSize, i requires 0 <= i < m.blockSize => Item(block, i))
  }

  // The bytes of a list of blocks, and of a whole word, in bus order.
  function ListBytes(m: Mfb, blocks: seq<nat>): (bs: seq<byte>)
    ensures |bs| == m.Bytes(|blocks|)
  {
    if blocks == [] then [] else ListBytes(m, blocks[..|blocks| - 1]) + BlockBytes(m, blocks[|blocks| - 1])
  }

  function WordBlocks(m: Mfb, blocks: seq<seq<nat>>): (bs: seq<nat>)
    requires forall r :: 0 <= r < |blocks| ==> |blocks[r]| == m.regionSize
    ensures |bs| == m.Base(|blocks|)
  {
    if blocks == [] then [] else WordBlocks(m, blocks[..|blocks| - 1]) + blocks[|blocks| - 1]
  }

  function WordBytes(m: Mfb, w: CapturedWord): (bs: seq<byte>)
    requires w.Shaped(m)
    ensures |bs| == m.Bytes(m.Slots())
  {
    ListBytes(m, WordBlocks(m, w.blocks))
  }

  // _serialize_data: the bytes from a start block to an end item, unless the end is never met.
  function Serialize(m: Mfb, w: CapturedWord, startReg: nat, startBlk: nat, endReg: nat,
      endItem: nat): Result<seq<byte>>
    requires w.Shaped(m)
  {
    var from := m.Bytes(m.Base(startReg) + if startBlk < m.regionSize then startBlk else m.regionSize);
    var to := m.Bytes(m.Base(endReg)) + endItem;
    if endReg < m.regions && endItem < m.Bytes(m.regionSize) && from <= to then
      LastByte(m, endReg, endItem);
      Success(WordBytes(m, w)[from..to + 1])
    else
      Failure(SerializationError)
  }

  lemma LastByte(m: Mfb, reg: nat, item: nat)
    requires reg < m.regions && item < m.Bytes(m.regionSize)
    ensures m.Bytes(m.Base(reg)) + item < m.Bytes(m.Slots())
  {
    TimesMonotone(reg + 1, m.regions, m.regionSize);
    TimesAdd(m.Base(reg), m.regionSize, m.blockSize);
    TimesMonotone(m.Base(reg + 1), m.Slots(), m.blockSize);
  }

  // ---------------------------------------------------------------- decoding

  ghost predicate AllShaped(m: Mfb, words: seq<CapturedWord>) {
    forall i :: 0 <= i < |words| ==> words[i].Shaped(m)
  }

  // The part of the frame in words[i].
  function Piece(m: Mfb, words: seq<CapturedWord>, s: Found, e: Found, i: nat): Result<seq<byte>>
    requires m.Valid() && i < |words| && AllShaped(m, words)
  {
    var one := words[0] == words[|words| - 1];
    TimesMonotone(1, m.regionSize, m.blockSize);
    assert m.Bytes(1) == m.Bytes(0) + m.blockSize;
    var lastItem := m.Bytes(m.regionSize) - 1;
    if i == 0 && one then Serialize(m, words[i], s.reg, s.pos, e.reg, e.pos)
    else if i == 0 then Serialize(m, words[i], s.reg, s.pos, m.regions - 1, lastItem)
    else if i == |words| - 1 then Serialize(m, words[i], 0, 0, e.reg, e.pos)
    else Serialize(m, words[i], 0, 0, m.regions - 1, lastItem)
  }

  function Pieces(m: Mfb, words: seq<CapturedWord>, s: Found, e: Found, n: nat): Result<seq<byte>>
    requires m.Valid() && n <= |words| && AllShaped(m, words)
  {
    if n == 0 then Success([])
    else
      var done :- Pieces(m, words, s, e, n - 1);
      var piece :- Piece(m, words, s, e, n - 1);
      Success(done + piece)
  }

  // _decode_packet
  function DecodePacket(m: Mfb, words: seq<CapturedWord>): Result<Option<seq<byte>>>
    requires m.Valid() && AllShaped(m, words)
  {
    if words == [] then Success(None)
    else
      var e := Detect(m, words[|words| - 1], Eof);
      if !e.detected then Success(None)
      else
        var s := Detect(m, words[0], Sof);
        if !s.detected then Failure(NoStartDetected)
        else
          var raw :- Pieces(m, words, s, e, |words|);
          Success(Some(raw))
  }

  // The test for a single word compares contents: a word that is buffered twice, with a start
  // and an end, gives the bytes from start to end and then those from its first byte to the end.
  lemma RepeatedWord(m: Mfb, w: CapturedWord)
    requires m.Valid() && w.Shaped(m) && Detect(m, w, Sof).detected && Detect(m, w, Eof).detected
    ensures var s, e := Detect(m, w, Sof), Detect(m, w, Eof);
      var a, b := Serialize(m, w, s.reg, s.pos, e.reg, e.pos), Serialize(m, w, 0, 0, e.reg, e.pos);
      DecodePacket(m, [w, w]) ==
        if a.Success? && b.Success? then Success(Some(a.value + b.value)) else Failure(SerializationError)
  {
    hide Detect;
    var s, e := Detect(m, w, Sof), Detect(m, w, Eof);
    assert Pieces(m, [w, w], s, e, 0) == Success([]);
    var a := Piece(m, [w, w], s, e, 0);
    if a.Success? { assert [] + a.value == a.value; }
    assert Pieces(m, [w, w], s, e, 1) == a;
  }

  // _initialize_mfb
  function InitializeMfb(m: Mfb, words: seq<CapturedWord>): (r: seq<CapturedWord>)
    requires |words| > 0 && AllShaped(m, words)
    ensures AllShaped(m, r)
  {
    var w := words[|words| - 1];
    var s, e := Detect(m, w, Sof), Detect(m, w, Eof);
    var sopOffset := m.Bytes(m.Base(s.reg) + s.pos);
    var eopOffset := m.Bytes(m.Base(e.reg)) + e.pos;
    if s.detected && e.detected && sopOffset < eopOffset then
      var t := Remove(m, Remove(m, w, Sof, s.reg), Eof, e.reg);
      if Detect(m, t, Sof).detected then [t] else []
    else if s.detected then
      [Remove(m, w, Eof, e.reg)]
    else
      []
  }

  function Weight(words: seq<CapturedWord>): nat {
    if words == [] then 0 else words[|words| - 1].vld + 1
  }

  lemma InitializeDrops(m: Mfb, words: seq<CapturedWord>)
    requires |words| > 0 && AllShaped(m, words)
    requires Detect(m, words[|words| - 1], Eof).detected
    ensures Weight(InitializeMfb(m, words)) < Weight(words)
  {
    var w := words[|words| - 1];
    RemoveDrops(m, w, Eof);
    if Detect(m, w, Sof).detected {
      RemoveDrops(m, w, Sof);
      var t := Remove(m, w, Sof, Detect(m, w, Sof).reg);
      AndAtMost(t.vld, HoleMask(m, Eof, Detect(m, w, Eof).reg));
    }
  }

  lemma DecodeDrops(m: Mfb, words: seq<CapturedWord>)
    requires m.Valid() && AllShaped(m, words)
    requires DecodePacket(m, words).Success? && DecodePacket(m, words).value.Some?
    ensures |words| > 0
    ensures Weight(InitializeMfb(m, words)) < Weight(words)
  {
    InitializeDrops(m, words);
  }

  // Buffered words and the frames captured so far.
  datatype State = State(words: seq<CapturedWord>, packets: seq<seq<byte>>)

  // The inner loop of read: decode until the buffer holds no complete frame.
  function Drain(m: Mfb, st: State): (r: Result<State>)
    requires m.Valid() && AllShaped(m, st.words)
    ensures r.Success? ==> AllShaped(m, r.value.words)
    decreases Weight(st.words)
  {
    var p :- DecodePacket(m, st.words);
    match p
    case None => Success(st)
    case Some(frame) =>
      DecodeDrops(m, st.words);
      Drain(m, State(InitializeMfb(m, st.words), st.packets + [frame]))
  }

  // One iteration of the outer loop of read.
  function Feed(m: Mfb, st: State, bw: BusWord): (r: Result<State>)
    requires m.Valid() && AllShaped(m, st.words)
    ensures r.Success? ==> AllShaped(m, r.value.words)
  {
    Drain(m, State(st.words + [Capture(m, bw)], st.packets))
  }

  // read over the first n words of a capture.
  function Run(m: Mfb, bws: seq<BusWord>, n: nat): (r: Result<State>)
    requires m.Valid() && n <= |bws|
    ensures r.Success? ==> AllShaped(m, r.value.words)
  {
    if n == 0 then Success(State([], []))
    else
      var st :- Run(m, bws, n - 1);
      Feed(m, st, bws[n - 1])
  }
}
