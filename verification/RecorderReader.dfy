// The frame recorder's reader: the loops that read, decode and trim the captured words.
module Reader {
  import opened Numbers
  import opened Options
  import opened MfbStream
  import opened FrameRecorder

  // ---------------------------------------------------------------- where an item lies

  lemma {:induction false} ListBytesAt(m: Mfb, blocks: seq<nat>, n: nat, i: nat)
    requires n < |blocks| && i < m.blockSize
    ensures m.Bytes(n) + i < |ListBytes(m, blocks)| && ListBytes(m, blocks)[m.Bytes(n) + i] == Item(blocks[n], i)
  {
    TimesMonotone(n + 1, |blocks|, m.blockSize);
    if n < |blocks| - 1 {
      ListBytesAt(m, blocks[..|blocks| - 1], n, i);
    }
  }

  lemma {:induction false} WordBlocksAt(m: Mfb, blocks: seq<seq<nat>>, r: nat, b: nat)
    requires r < |blocks| && b < m.regionSize && forall q :: 0 <= q < |blocks| ==> |blocks[q]| == m.regionSize
    ensures m.Base(r) + b < |WordBlocks(m, blocks)| && WordBlocks(m, blocks)[m.Base(r) + b] == blocks[r][b]
  {
    TimesMonotone(r + 1, |blocks|, m.regionSize);
    if r < |blocks| - 1 {
      WordBlocksAt(m, blocks[..|blocks| - 1], r, b);
    }
  }

  // Byte offset of item i of block b of region r.
  function Offset(m: Mfb, r: nat, b: nat, i: nat): nat {
    m.Bytes(m.Base(r) + b) + i
  }

  lemma WordBytesAt(m: Mfb, w: CapturedWord, r: nat, b: nat, i: nat)
    requires w.Shaped(m) && r < m.regions && b < m.regionSize && i < m.blockSize
    ensures Offset(m, r, b, i) < |WordBytes(m, w)| && WordBytes(m, w)[Offset(m, r, b, i)] == Item(w.blocks[r][b], i)
  {
    WordBlocksAt(m, w.blocks, r, b);
    ListBytesAt(m, WordBlocks(m, w.blocks), m.Base(r) + b, i);
  }

  // The end item is met at exactly one place.
  lemma Meets(m: Mfb, r: nat, b: nat, i: nat, endReg: nat, endItem: nat)
    requires r < m.regions && b < m.regionSize && i < m.blockSize
    ensures r == endReg && endItem == m.Bytes(b) + i <==> (
      && endReg < m.regions && endItem < m.Bytes(m.regionSize)
      && m.Bytes(m.Base(endReg)) + endItem == Offset(m, r, b, i))
  {
    TimesAdd(m.Base(r), b, m.blockSize);
    TimesMonotone(b + 1, m.regionSize, m.blockSize);
    if endItem < m.Bytes(m.regionSize) {
      TimesAdd(m.Base(endReg), m.regionSize, m.blockSize);
      TimesAdd(m.Base(r), m.regionSize, m.blockSize);
      if endReg < r {
        TimesMonotone(endReg + 1, r, m.regionSize);
        TimesMonotone(m.Base(endReg + 1), m.Base(r), m.blockSize);
      } else if r < endReg {
        TimesMonotone(r + 1, endReg, m.regionSize);
        TimesMonotone(m.Base(r + 1), m.Base(endReg), m.blockSize);
      }
    }
  }

  // The end byte, if it lies inside the word and not before the start.
  ghost predicate EndIn(m: Mfb, from: nat, endReg: nat, endItem: nat) {
    endReg < m.regions && endItem < m.Bytes(m.regionSize) && from <= m.Bytes(m.Base(endReg)) + endItem
  }

  // Bytes [from, pos) are serialized and the end has not been met among them.
  ghost predicate Serialized(m: Mfb, w: CapturedWord, from: nat, pos: nat, endReg: nat, endItem: nat, raw: seq<byte>)
    requires w.Shaped(m)
  {
    && from <= pos <= m.Bytes(m.Slots()) && raw == WordBytes(m, w)[from..pos]
    && (EndIn(m, from, endReg, endItem) ==> pos <= m.Bytes(m.Base(endReg)) + endItem)
  }

  // The end byte has been met and everything up to it is serialized.
  ghost predicate Met(m: Mfb, w: CapturedWord, from: nat, endReg: nat, endItem: nat, raw: seq<byte>)
    requires w.Shaped(m)
  {
    && EndIn(m, from, endReg, endItem) && m.Bytes(m.Base(endReg)) + endItem < m.Bytes(m.Slots())
    && raw == WordBytes(m, w)[from..m.Bytes(m.Base(endReg)) + endItem + 1]
  }

  lemma SerializedNext(m: Mfb, w: CapturedWord, from: nat, r: nat, b: nat, i: nat, endReg: nat, endItem: nat,
      raw: seq<byte>)
    requires w.Shaped(m) && r < m.regions && b < m.regionSize && i < m.blockSize
    requires Serialized(m, w, from, Offset(m, r, b, i), endReg, endItem, raw)
    ensures var raw' := raw + [Item(w.blocks[r][b], i)];
      if r == endReg && endItem == m.Bytes(b) + i then Met(m, w, from, endReg, endItem, raw')
      else Serialized(m, w, from, Offset(m, r, b, i) + 1, endReg, endItem, raw')
  {
    hide WordBytes;
    WordBytesAt(m, w, r, b, i);
    Meets(m, r, b, i, endReg, endItem);
  }

  lemma BlockStep(m: Mfb, bus: nat, n: nat)
    ensures Shr(Shr(bus, Times(m.Bytes(n), 8)), Times(m.blockSize, 8)) == Shr(bus, Times(m.Bytes(n + 1), 8))
  {
    ShrShr(bus, Times(m.Bytes(n), 8), Times(m.blockSize, 8));
    TimesAdd(m.Bytes(n), m.blockSize, 8);
  }

  lemma PushLimb(limbs: seq<nat>, i: nat)
    requires i < |limbs| && limbs[i] < Pow2(32)
    ensures Or(Shl(Pack(32, limbs[i + 1..]), 32), limbs[i]) == Pack(32, limbs[i..])
  {
    OrShl(Pack(32, limbs[i + 1..]), 32, limbs[i]);
    assert limbs[i..][1..] == limbs[i + 1..];
  }

  class RecorderReader {
    const m: Mfb
    // Buffered words and captured frames.
    var mfbWords: seq<CapturedWord>
    var packets: seq<seq<byte>>

    constructor (m: Mfb)
      requires m.Valid()
      ensures this.m == m && mfbWords == [] && packets == []
    {
      this.m := m;
      mfbWords := [];
      packets := [];
    }

    // The word-reading part of read: limbs from the highest address down, then blocks.
    method ReadWord(bw: BusWord) returns (w: CapturedWord)
      requires forall i :: 0 <= i < |bw.limbs| ==> bw.limbs[i] < Pow2(32)
      ensures w == Capture(m, bw)
    {
      var bus := 0;
      for i := |bw.limbs| downto 0
        invariant bus == Pack(32, bw.limbs[i..])
      {
        PushLimb(bw.limbs, i);
        bus := Or(Shl(bus, 32), bw.limbs[i]);
      }
      assert bw.limbs[0..] == bw.limbs;
      var blocks := SplitBlocks(bus);
      w := CapturedWord(blocks, bw.sofPos, bw.eofPos, bw.vld);
    }

    method SplitBlocks(bus0: nat) returns (blocks: seq<seq<nat>>)
      ensures blocks == Blocks(m, bus0)
    {
      var bus := bus0;
      blocks := [];
      for reg := 0 to m.regions
        invariant |blocks| == reg && forall r :: 0 <= r < reg ==> blocks[r] == RegionBlocks(m, bus0, r)
        invariant bus == Shr(bus0, Times(m.Bytes(m.Base(reg)), 8))
      {
        var regBlk: seq<nat> := [];
        for blk := 0 to m.regionSize
          invariant |regBlk| == blk && forall b :: 0 <= b < blk ==> regBlk[b] == BusBlock(m, bus0, m.Base(reg) + b)
          invariant bus == Shr(bus0, Times(m.Bytes(m.Base(reg) + blk), 8))
        {
          var blkMask := Pack(1, Ones(Times(m.blockSize, 8)));
          AndOnes(bus, Times(m.blockSize, 8));
          regBlk := regBlk + [And(bus, blkMask)];
          BlockStep(m, bus0, m.Base(reg) + blk);
          bus := Shr(bus, Times(m.blockSize, 8));
        }
        blocks := blocks + [regBlk];
      }
    }

    // The item loop of _serialize_data for one block.
    method SerializeBlock(w: CapturedWord, reg: nat, blk: nat, endReg: nat, endItem: nat, raw0: seq<byte>,
        ghost from: nat)
      returns (raw: seq<byte>, done: bool)
      requires m.Valid() && w.Shaped(m) && reg < m.regions && blk < m.regionSize
      requires Serialized(m, w, from, Offset(m, reg, blk, 0), endReg, endItem, raw0)
      ensures done ==> Met(m, w, from, endReg, endItem, raw)
      ensures !done ==> Serialized(m, w, from, Offset(m, reg, blk + 1, 0), endReg, endItem, raw)
    {
      hide EndIn, Serialized, Met, WordBytes, Item;
      raw := raw0;
      for i := 0 to m.blockSize
        invariant Serialized(m, w, from, Offset(m, reg, blk, i), endReg, endItem, raw)
      {
        SerializedNext(m, w, from, reg, blk, i, endReg, endItem, raw);
        raw := raw + [Item(w.blocks[reg][blk], i)];
        var currItem := m.Bytes(blk) + i;
        if reg == endReg && endItem == currItem {
          return raw, true;
        }
      }
      done := false;
    }

    // The block loop of _serialize_data for one region.
    method SerializeRegion(w: CapturedWord, reg: nat, startBlk: nat, endReg: nat, endItem: nat,
        raw0: seq<byte>, ghost from: nat)
      returns (raw: seq<byte>, done: bool)
      requires m.Valid() && w.Shaped(m) && reg < m.regions
      requires Serialized(m, w, from, Offset(m, reg, Within(m, startBlk), 0), endReg, endItem, raw0)
      ensures done ==> Met(m, w, from, endReg, endItem, raw)
      ensures !done ==> Serialized(m, w, from, Offset(m, reg + 1, 0, 0), endReg, endItem, raw)
    {
      hide EndIn, Serialized, Met, WordBytes, Item;
      raw := raw0;
      var cBlk := startBlk;
      while cBlk < m.regionSize
        invariant Serialized(m, w, from, Offset(m, reg, Within(m, cBlk), 0), endReg, endItem, raw)
        decreases m.regionSize - cBlk
      {
        raw, done := SerializeBlock(w, reg, cBlk, endReg, endItem, raw, from);
        if done {
          return;
        }
        cBlk := cBlk + 1;
      }
      done := false;
    }

    // _serialize_data
    method SerializeData(w: CapturedWord, startReg: nat, startBlk: nat, endReg: nat, endItem: nat)
      returns (r: Result<seq<byte>>)
      requires m.Valid() && w.Shaped(m)
      ensures r == Serialize(m, w, startReg, startBlk, endReg, endItem)
    {
      hide EndIn, Serialized, Met, WordBytes, Serialize, Offset;
      var raw := [];
      var tmpStartBlk := startBlk;
      ghost var from := Offset(m, startReg, Within(m, startBlk), 0);
      SerializedStart(m, w, startReg, startBlk, endReg, endItem);
      var cReg := startReg;
      while cReg < m.regions
        invariant startReg < m.regions ==> cReg <= m.regions
        invariant startReg < m.regions ==>
          Serialized(m, w, from, Offset(m, cReg, Within(m, tmpStartBlk), 0), endReg, endItem, raw)
        decreases m.regions - cReg
      {
        var done: bool;
        raw, done := SerializeRegion(w, cReg, tmpStartBlk, endReg, endItem, raw, from);
        if done {
          SerializedMet(m, w, startReg, startBlk, endReg, endItem, raw);
          return Success(raw);
        }
        tmpStartBlk := 0;
        cReg := cReg + 1;
      }
      SerializedEnd(m, w, startReg, startBlk, endReg, endItem, Within(m, tmpStartBlk), raw);
      r := Failure(SerializationError);
    }

    // _decode_packet
    method DecodeBuffer() returns (r: Result<Option<seq<byte>>>)
      requires m.Valid() && AllShaped(m, mfbWords)
      ensures r == DecodePacket(m, mfbWords)
    {
      if |mfbWords| == 0 {
        return Success(None);
      }
      var end := Detect(m, mfbWords[|mfbWords| - 1], Eof);
      if !end.detected {
        return Success(None);
      }
      var start := Detect(m, mfbWords[0], Sof);
      if !start.detected {
        return Failure(NoStartDetected);
      }
      var raw := CollectPieces(start, end);
      match raw
      case Failure(error) => r := Failure(error);
      case Success(bytes) => r := Success(Some(bytes));
    }

    // The loop of _decode_packet over the buffered words.
    method CollectPieces(start: Found, end: Found) returns (r: Result<seq<byte>>)
      requires m.Valid() && AllShaped(m, mfbWords) && mfbWords != []
      ensures r == Pieces(m, mfbWords, start, end, |mfbWords|)
    {
      hide Serialize;
      var oneWord := mfbWords[0] == mfbWords[|mfbWords| - 1];
      var raw := [];
      LastItem(m);
      var lastRegItemNum := m.Bytes(m.regionSize) - 1;
      var lastRegNum := m.regions - 1;
      var i := 0;
      while i < |mfbWords|
        invariant 0 <= i <= |mfbWords|
        invariant Pieces(m, mfbWords, start, end, i) == Success(raw)
      {
        var piece: Result<seq<byte>>;
        if i == 0 && oneWord {
          piece := SerializeData(mfbWords[i], start.reg, start.pos, end.reg, end.pos);
        } else if i == 0 {
          piece := SerializeData(mfbWords[i], start.reg, start.pos, lastRegNum, lastRegItemNum);
        } else if i == |mfbWords| - 1 {
          piece := SerializeData(mfbWords[i], 0, 0, end.reg, end.pos);
        } else {
          piece := SerializeData(mfbWords[i], 0, 0, lastRegNum, lastRegItemNum);
        }
        assert piece == Piece(m, mfbWords, start, end, i);
        if piece.Failure? {
          PiecesFail(m, mfbWords, start, end, i, |mfbWords|);
          return piece;
        }
        raw := raw + piece.value;
        i := i + 1;
      }
      r := Success(raw);
    }

    // _remove_sop and _remove_eop mask a flag of the buffered word in place.
    method RemoveMark(mark: Mark, reg: nat)
      requires |mfbWords| == 1
      modifies this`mfbWords
      ensures mfbWords == [Remove(m, old(mfbWords)[0], mark, reg)]
    {
      mfbWords := [mfbWords[0].(vld := And(mfbWords[0].vld, HoleMask(m, mark, reg)))];
    }

    // _initialize_mfb
    method TrimBuffer()
      requires m.Valid() && |mfbWords| > 0 && AllShaped(m, mfbWords)
      modifies this`mfbWords
      ensures mfbWords == InitializeMfb(m, old(mfbWords))
    {
      hide Detect, Remove;
      mfbWords := [mfbWords[|mfbWords| - 1]];
      var sop, eop := Detect(m, mfbWords[0], Sof), Detect(m, mfbWords[0], Eof);
      var sopOffset := m.Bytes(m.Base(sop.reg) + sop.pos);
      var eopOffset := m.Bytes(m.Base(eop.reg)) + eop.pos;
      if sop.detected && eop.detected && sopOffset < eopOffset {
        RemoveMark(Sof, sop.reg);
        RemoveMark(Eof, eop.reg);
        sop := Detect(m, mfbWords[0], Sof);
        if !sop.detected {
          mfbWords := [];
        }
      } else if sop.detected {
        RemoveMark(Eof, eop.reg);
      } else {
        mfbWords := [];
      }
    }

    // One turn of the capture loop of read: buffer a word, then decode while frames complete.
    method FeedWord(bw: BusWord) returns (r: Result<()>)
      requires m.Valid() && AllShaped(m, mfbWords)
      requires forall i :: 0 <= i < |bw.limbs| ==> bw.limbs[i] < Pow2(32)
      modifies this
      ensures r.Success? ==>
        AllShaped(m, mfbWords) && Feed(m, State(old(mfbWords), old(packets)), bw) == Success(State(mfbWords, packets))
      ensures r.Failure? ==> Feed(m, State(old(mfbWords), old(packets)), bw) == Failure(r.error)
    {
      hide DecodePacket, InitializeMfb, Weight, Drain, Capture, Pack;
      var word := ReadWord(bw);
      mfbWords := mfbWords + [word];
      while true
        invariant AllShaped(m, mfbWords)
        invariant Drain(m, State(mfbWords, packets)) == Feed(m, State(old(mfbWords), old(packets)), bw)
        decreases Weight(mfbWords)
      {
        var packet := DecodeBuffer();
        DrainTurn(m, State(mfbWords, packets));
        match packet {
          case Failure(error) =>
            return Failure(error);
          case Success(None) =>
            return Success(());
          case Success(Some(frame)) =>
            DecodeDrops(m, mfbWords);
            TrimBuffer();
            packets := packets + [frame];
        }
      }
    }

    // read: every word that arrives goes through the capture loop.
    method Read(bws: seq<BusWord>) returns (r: Result<()>)
      requires m.Valid() && mfbWords == [] && packets == []
      requires forall k :: 0 <= k < |bws| ==> forall i :: 0 <= i < |bws[k].limbs| ==> bws[k].limbs[i] < Pow2(32)
      modifies this
      ensures r.Success? ==> Run(m, bws, |bws|) == Success(State(mfbWords, packets))
      ensures r.Failure? ==> Run(m, bws, |bws|) == Failure(r.error)
    {
      hide Feed, Capture;
      var k := 0;
      while k < |bws|
        invariant 0 <= k <= |bws| && AllShaped(m, mfbWords)
        invariant Run(m, bws, k) == Success(State(mfbWords, packets))
      {
        var fed := FeedWord(bws[k]);
        if fed.Failure? {
          RunFailsOn(m, bws, k + 1, |bws|, fed.error);
          return fed;
        }
        k := k + 1;
      }
      r := Success(());
    }
  }

  // One turn of the decoding loop.
  lemma DrainTurn(m: Mfb, st: State)
    requires m.Valid() && AllShaped(m, st.words)
    ensures match DecodePacket(m, st.words)
      case Failure(error) => Drain(m, st) == Failure(error)
      case Success(None) => Drain(m, st) == Success(st)
      case Success(Some(frame)) =>
        && st.words != []
        && Drain(m, st) == Drain(m, State(InitializeMfb(m, st.words), st.packets + [frame]))
  {
    hide DecodePacket, InitializeMfb, Weight;
    if DecodePacket(m, st.words).Success? && DecodePacket(m, st.words).value.Some? { DecodeDrops(m, st.words); }
  }

  lemma LastItem(m: Mfb)
    requires m.Valid()
    ensures m.Bytes(m.regionSize) > 0
  {
    TimesMonotone(1, m.regionSize, m.blockSize);
    assert m.Bytes(1) == m.Bytes(0) + m.blockSize;
  }

  lemma {:induction false} PiecesFail(m: Mfb, words: seq<CapturedWord>, s: Found, e: Found, i: nat, n: nat)
    requires m.Valid() && i < n <= |words| && AllShaped(m, words)
    requires Pieces(m, words, s, e, i).Success? && Piece(m, words, s, e, i).Failure?
    ensures Pieces(m, words, s, e, n) == Failure(Piece(m, words, s, e, i).error)
    decreases n
  {
    hide Piece;
    if i < n - 1 { PiecesFail(m, words, s, e, i, n - 1); }
  }

  lemma {:induction false} RunFailsOn(m: Mfb, bws: seq<BusWord>, k: nat, n: nat, error: Error)
    requires m.Valid() && k <= n <= |bws| && Run(m, bws, k) == Failure(error)
    ensures Run(m, bws, n) == Failure(error)
    decreases n
  {
    hide Feed;
    if k < n { RunFailsOn(m, bws, k, n - 1, error); }
  }

  // range(blk, region_size) is empty from region_size on.
  function Within(m: Mfb, blk: nat): nat {
    if blk < m.regionSize then blk else m.regionSize
  }

  lemma SerializedStart(m: Mfb, w: CapturedWord, startReg: nat, startBlk: nat, endReg: nat, endItem: nat)
    requires w.Shaped(m)
    ensures var from := Offset(m, startReg, Within(m, startBlk), 0);
      startReg < m.regions ==> Serialized(m, w, from, from, endReg, endItem, [])
  {
    if startReg < m.regions {
      TimesMonotone(startReg + 1, m.regions, m.regionSize);
      TimesMonotone(m.Base(startReg) + Within(m, startBlk), m.Slots(), m.blockSize);
    }
  }

  lemma SerializedMet(m: Mfb, w: CapturedWord, startReg: nat, startBlk: nat, endReg: nat, endItem: nat, raw: seq<byte>)
    requires w.Shaped(m) && m.Valid() && Met(m, w, Offset(m, startReg, Within(m, startBlk), 0), endReg, endItem, raw)
    ensures Serialize(m, w, startReg, startBlk, endReg, endItem) == Success(raw)
  {
  }

  // All regions are passed without meeting the end.
  lemma SerializedEnd(m: Mfb, w: CapturedWord, startReg: nat, startBlk: nat, endReg: nat, endItem: nat,
      b: nat, raw: seq<byte>)
    requires w.Shaped(m) && m.Valid()
    requires startReg < m.regions ==>
      Serialized(m, w, Offset(m, startReg, Within(m, startBlk), 0), Offset(m, m.regions, b, 0), endReg, endItem, raw)
    ensures Serialize(m, w, startReg, startBlk, endReg, endItem) == Failure(SerializationError)
  {
    var from := Offset(m, startReg, Within(m, startBlk), 0);
    EndBelow(m, from, endReg, endItem);
    if startReg < m.regions {
      TimesMonotone(m.Slots(), m.Slots() + b, m.blockSize);
    } else {
      TimesMonotone(m.regions, startReg, m.regionSize);
      TimesMonotone(m.Slots(), m.Base(startReg) + Within(m, startBlk), m.blockSize);
    }
  }

  lemma EndBelow(m: Mfb, from: nat, endReg: nat, endItem: nat)
    ensures EndIn(m, from, endReg, endItem) ==> m.Bytes(m.Base(endReg)) + endItem < m.Bytes(m.Slots())
  {
    if EndIn(m, from, endReg, endItem) { LastByte(m, endReg, endItem); }
  }
}
