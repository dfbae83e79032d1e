// The frame player's configurator: it takes frames from the end of the packet list, fills
// MFB words block by block and writes each finished word to the component.
module Player {
  import opened Numbers
  import opened Options
  import opened MfbStream
  import opened RecorderStream
  import opened FrameLayout
  import opened FramePlayer

  lemma PushItem(rest: seq<byte>, x: byte)
    ensures Or(Shl(Pack(8, rest), 8), x) == Pack(8, [x] + rest)
  {
    assert Pow2(8) == 256 by { assert Pow2(4) == 16; }
    OrShl(Pack(8, rest), 8, x);
    assert ([x] + rest)[1..] == rest;
  }

  lemma NothingPacked()
    ensures Pack(8, []) == 0 && StructBytes([]) == []
  {
  }

  // One step of packing fields from the highest region down.
  lemma PushField(w: nat, ds: seq<nat>, i: nat)
    requires i < |ds| && ds[i] < Pow2(w)
    ensures Or(Shl(Pack(w, ds[i + 1..]), w), ds[i]) == Pack(w, ds[i..])
  {
    OrShl(Pack(w, ds[i + 1..]), w, ds[i]);
    assert ds[i..][1..] == ds[i + 1..];
  }

  lemma OrZero(x: nat)
    ensures Or(x, 0) == x
  {
  }

  // Every flagged position fits its register entry.
  ghost predicate PositionsOk(m: Mfb, mfb: MfbStruct) {
    && mfb.Shaped(m)
    && forall r :: 0 <= r < m.regions ==> mfb.sofPos[r] < Pow2(m.PosWidth(Sof)) && mfb.eofPos[r] < Pow2(m.PosWidth(Eof))
  }

  lemma RepresentedFits(m: Mfb, mfb: MfbStruct, cur: seq<Slot>)
    requires m.Valid() && Represents(m, mfb, cur) && ValidSlots(m, cur)
    ensures PositionsOk(m, mfb)
  {
    PositionsFit(m, cur, Sof);
    PositionsFit(m, cur, Eof);
    forall r | 0 <= r < m.regions
      ensures mfb.sofPos[r] < Pow2(m.PosWidth(Sof)) && mfb.eofPos[r] < Pow2(m.PosWidth(Eof))
    {
      assert RepresentsRegion(m, mfb, cur, r);
      assert Positions(m, cur, Sof)[r] < Pow2(m.PosWidth(Sof));
      assert Positions(m, cur, Eof)[r] < Pow2(m.PosWidth(Eof));
    }
  }

  class PlayerConfigurator {
    const m: Mfb
    const fifoDepth: nat
    // Words written to the component, and how many were sent.
    var written: seq<BusWord>
    var wordsCnt: nat

    constructor (m: Mfb, fifoDepth: nat)
      requires m.Valid()
      ensures this.m == m && this.fifoDepth == fifoDepth && written == [] && wordsCnt == 0
    {
      this.m := m;
      this.fifoDepth := fifoDepth;
      written := [];
      wordsCnt := 0;
    }

    // All items of the word in one number, the first item lowest.
    method SerializeBus(word: seq<seq<seq<byte>>>) returns (bus: nat)
      ensures bus == Pack(8, StructBytes(word))
    {
      hide Pack, Or, Shl, Pow2;
      bus := 0;
      NothingPacked();
      assert word[|word|..] == [];
      for r := |word| downto 0
        invariant bus == Pack(8, StructBytes(word[r..]))
      {
        var region := word[r];
        ghost var above := StructBytes(word[r + 1..]);
        assert RegionBytes(region[|region|..]) + above == above;
        for b := |region| downto 0
          invariant bus == Pack(8, RegionBytes(region[b..]) + above)
        {
          var block := region[b];
          ghost var rest := RegionBytes(region[b + 1..]) + above;
          assert block[|block|..] + rest == rest;
          for i := |block| downto 0
            invariant bus == Pack(8, block[i..] + rest)
          {
            PushItem(block[i + 1..] + rest, block[i]);
            assert [block[i]] + (block[i + 1..] + rest) == block[i..] + rest;
            bus := Or(Shl(bus, 8), block[i]);
          }
          assert region[b..][1..] == region[b + 1..];
          assert block[0..] + rest == RegionBytes(region[b..]) + above;
        }
        assert word[r..][1..] == word[r + 1..];
        assert region[0..] == region;
      }
      assert word[0..] == word;
    }

    method SplitLimbs(bus: nat, n: nat) returns (limbs: seq<nat>)
      ensures limbs == Unpack(32, bus, n)
    {
      limbs := [];
      var rest := bus;
      for i := 0 to n
        invariant limbs + Unpack(32, rest, n - i) == Unpack(32, bus, n)
      {
        AndOnes(rest, 32);
        limbs := limbs + [And(rest, Pack(1, Ones(32)))];
        rest := Shr(rest, 32);
      }
    }

    // Flags as bits, lowest region first.
    method PackFlags(flags: seq<bool>) returns (bits: nat)
      requires flags != []
      ensures bits == Pack(1, FlagBits(flags))
    {
      bits := 0;
      ghost var ds := FlagBits(flags);
      assert Pow2(1) == 2;
      for i := |flags| downto 0
        invariant bits == if i == 0 then Pack(1, ds) else Shl(Pack(1, ds[i..]), 1)
      {
        PushField(1, ds, i);
        OrZero(Shl(Pack(1, ds[i + 1..]), 1));
        if flags[i] {
          bits := Or(bits, 1);
        }
        assert bits == Pack(1, ds[i..]);
        if i > 0 {
          bits := Shl(bits, 1);
        } else {
          assert ds[0..] == ds;
        }
      }
    }

    // Positions of the flagged regions, in entries of the given width, lowest region first.
    method PackPositions(flags: seq<bool>, pos: seq<nat>, width: nat) returns (reg: nat)
      requires flags != [] && |pos| == |flags| && forall r :: 0 <= r < |pos| ==> pos[r] < Pow2(width)
      ensures reg == Pack(width, Guarded(flags, pos))
    {
      reg := 0;
      ghost var ds := Guarded(flags, pos);
      ShlIsZero(width);
      for i := |flags| downto 0
        invariant reg == if i == 0 then Pack(width, ds) else Shl(Pack(width, ds[i..]), width)
      {
        PushField(width, ds, i);
        OrZero(Shl(Pack(width, ds[i + 1..]), width));
        if flags[i] {
          reg := Or(reg, pos[i]);
        }
        assert reg == Pack(width, ds[i..]);
        if i > 0 {
          reg := Shl(reg, width);
        } else {
          assert ds[0..] == ds;
        }
      }
    }

    // _send_mfb_word: the register writes of one word are the image of the struct.
    method SendMfbWord(mfb: MfbStruct)
      requires m.Valid() && PositionsOk(m, mfb)
      modifies this
      ensures written == old(written) + [Image(m, mfb)] && wordsCnt == old(wordsCnt) + 1
    {
      var bus := SerializeBus(mfb.word);
      var limbs := SplitLimbs(bus, m.Transactions());
      var sof := PackFlags(mfb.sof);
      var eof := PackFlags(mfb.eof);
      var sofPos := PackPositions(mfb.sof, mfb.sofPos, m.PosWidth(Sof));
      var eofPos := PackPositions(mfb.eof, mfb.eofPos, m.PosWidth(Eof));
      var vld := Or(Or(Shl(sof, m.regions + 1), Shl(eof, 1)), 1);
      written := written + [BusWord(limbs, sofPos, eofPos, vld)];
      wordsCnt := wordsCnt + 1;
    }

    // _fill_mfb_word: every region is extended to its full size.
    method FillMfbWord(mfb: MfbStruct) returns (filled: MfbStruct)
      requires mfb.Shaped(m)
      ensures filled.Shaped(m) && filled == mfb.(word := filled.word)
      ensures forall r :: 0 <= r < m.regions ==> filled.word[r] == FillRegion(m, mfb.word[r])
    {
      var word := mfb.word;
      for r := 0 to m.regions
        invariant |word| == m.regions
        invariant forall q :: 0 <= q < r ==> word[q] == FillRegion(m, mfb.word[q])
        invariant forall q :: r <= q < m.regions ==> word[q] == mfb.word[q]
      {
        var region := word[r];
        if |region| > 0 {
          region := region[|region| - 1 := Padded(m, region[|region| - 1])];
        }
        if |region| < m.regionSize {
          region := region + Repeat(ZeroBlock(m), m.regionSize - |region|);
        }
        word := word[r := region];
      }
      filled := mfb.(word := word);
    }

    // _generate: frames are placed until none is left or one does not fit the FIFO.
    method Generate(packets: seq<seq<byte>>)
      requires m.Valid()
      modifies this
      ensures written == old(written) + Emitted(m, Place(m, fifoDepth, EMPTY, packets))
      ensures wordsCnt == old(wordsCnt) + |Emitted(m, Place(m, fifoDepth, EMPTY, packets))|
    {
      hide Filling, Encode, Encoded, WordsRequired, UsedBytes, Mfb.Valid, PlaceBlocks;
      var rest := packets;
      var mfb, reg, fifoPtr := ResetMfbStruct(m), 0, 0;
      ghost var lay := EMPTY;
      ResetFilling(m);
      NothingEncoded(m);
      while true
        invariant Filling(m, mfb, reg, lay.cur)
        invariant fifoPtr == |lay.sent| && wordsCnt == old(wordsCnt) + fifoPtr
        invariant written == old(written) + Encoded(m, lay.sent)
        invariant Place(m, fifoDepth, lay, rest) == Place(m, fifoDepth, EMPTY, packets)
        decreases |rest|
      {
        if |rest| == 0 {
          SendLast(mfb, reg, lay);
          break;
        }
        var content := rest[|rest| - 1];
        var blockList := Chunks(m, content);
        if fifoPtr + WordsRequired(m, |blockList|) > fifoDepth {
          SendLast(mfb, reg, lay);
          break;
        }
        rest := rest[..|rest| - 1];
        mfb, reg, fifoPtr := PlaceBlockList(mfb, reg, fifoPtr, blockList, lay, old(written));
        lay := PlaceFrame(m, lay, content);
      }
    }

    // The unpadded final word.
    method SendLast(mfb: MfbStruct, reg: nat, ghost lay: Layout)
      requires m.Valid() && Filling(m, mfb, reg, lay.cur)
      modifies this
      ensures written == old(written) + [Encode(m, lay.cur, UsedBytes(lay.cur))] && wordsCnt == old(wordsCnt) + 1
    {
      RepresentedFits(m, mfb, lay.cur);
      ImageIsEncode(m, mfb, lay.cur);
      SendMfbWord(mfb);
    }

    // A word that is complete before the next block: fill it and send it.
    method SendFull(mfb: MfbStruct, reg: nat, first: bool, ghost cur: seq<Slot>)
      requires m.Valid() && Filling(m, mfb, reg, cur) && |Settle(m, cur, first)| == m.Slots()
      modifies this
      ensures written == old(written) + [Encode(m, Settle(m, cur, first), Flat(Settle(m, cur, first)))]
      ensures wordsCnt == old(wordsCnt) + 1
    {
      hide Filling, Settle, Represents, PadsLast, ValidSlots, Encode, MarkUsed;
      ghost var c := Settle(m, cur, first);
      SettleRepresents(m, mfb, reg, cur, first);
      SettlePads(m, mfb, reg, cur, first);
      RepresentsShaped(m, mfb, c);
      var filled := FillMfbWord(mfb);
      FilledImage(m, mfb, filled, c);
      MarkUsedValid(m, c);
      RepresentedFits(m, filled, MarkUsed(c));
      SendMfbWord(filled);
    }

    // Flags and data of one block.
    method AppendBlock(mfb0: MfbStruct, reg: nat, block0: seq<byte>, first: bool, last: bool) returns (mfb: MfbStruct)
      requires mfb0.Shaped(m) && reg < m.regions && 0 < |block0|
      ensures mfb == PutBlock(m, mfb0, reg,
        Slot(Padded(m, block0), first, last, if last then |block0| - 1 else 0, true))
    {
      mfb := mfb0;
      var block := block0;
      if first {
        mfb := mfb.(sof := mfb.sof[reg := true], sofPos := mfb.sofPos[reg := |mfb.word[reg]|]);
      }
      if last {
        var eopPos := m.Bytes(|mfb.word[reg]|) + |block| - 1;
        mfb := mfb.(eof := mfb.eof[reg := true], eofPos := mfb.eofPos[reg := eopPos]);
      }
      block := Padded(m, block);
      mfb := mfb.(word := mfb.word[reg := mfb.word[reg] + [block]]);
    }

    // One turn of the block loop: finish the word or the region if needed, then append.
    method PlaceOne(mfb0: MfbStruct, reg0: nat, fifoPtr0: nat, block: seq<byte>, first: bool, last: bool,
                    ghost lay: Layout, ghost before: seq<BusWord>)
      returns (mfb: MfbStruct, reg: nat, fifoPtr: nat)
      requires m.Valid() && Filling(m, mfb0, reg0, lay.cur) && fifoPtr0 == |lay.sent|
      requires written == before + Encoded(m, lay.sent)
      requires 0 < |block| && AsSlot(m, block, first, last).Valid(m)
      modifies this
      ensures var r := PlaceBlock(m, lay, AsSlot(m, block, first, last));
        && Filling(m, mfb, reg, r.cur) && fifoPtr == |r.sent| && written == before + Encoded(m, r.sent)
      ensures wordsCnt == old(wordsCnt) + (fifoPtr - fifoPtr0)
    {
      hide *;
      mfb, reg, fifoPtr := mfb0, reg0, fifoPtr0;
      ghost var s := AsSlot(m, block, first, last);
      ghost var c := Settle(m, lay.cur, first);
      FillingShaped(m, mfb, reg, lay.cur);
      SettleFull(m, mfb, reg, lay.cur, first);
      DoneMeans(m, mfb, reg, first);
      PlaceBlockCases(m, lay, block, first, last);
      if (reg + 1 == m.regions && |mfb.word[m.regions - 1]| == m.regionSize)
        || (reg + 1 == m.regions && (first && mfb.sof[reg])) {
        SendFull(mfb, reg, first, lay.cur);
        EncodedAppend(m, lay.sent, c);
        fifoPtr := fifoPtr + 1;
        mfb := ResetMfbStruct(m);
        reg := 0;
        ResetReady(m);
        c := [];
      } else {
        SettleReady(m, mfb, reg, lay.cur, first);
      }
      if |mfb.word[reg]| == m.regionSize || (mfb.sof[reg] && first) {
        reg := reg + 1;
      }
      assert Ready(m, mfb, reg, c);
      ReadyShaped(m, mfb, reg, c);
      PutBlockFills(m, mfb, reg, c, s);
      mfb := AppendBlock(mfb, reg, block, first, last);
    }

    // The block loop of _generate for one frame.
    method PlaceBlockList(mfb0: MfbStruct, reg0: nat, fifoPtr0: nat, blockList: seq<seq<byte>>,
                           ghost lay: Layout, ghost before: seq<BusWord>)
      returns (mfb: MfbStruct, reg: nat, fifoPtr: nat)
      requires m.Valid() && Filling(m, mfb0, reg0, lay.cur) && fifoPtr0 == |lay.sent|
      requires written == before + Encoded(m, lay.sent)
      requires forall i :: 0 <= i < |blockList| ==>
        0 < |blockList[i]| <= m.blockSize && (i < |blockList| - 1 ==> |blockList[i]| == m.blockSize)
      modifies this
      ensures Filling(m, mfb, reg, PlaceBlocks(m, lay, blockList, |blockList|).cur)
      ensures fifoPtr == |PlaceBlocks(m, lay, blockList, |blockList|).sent|
      ensures wordsCnt == old(wordsCnt) + (fifoPtr - fifoPtr0)
      ensures written == before + Encoded(m, PlaceBlocks(m, lay, blockList, |blockList|).sent)
    {
      hide Filling, PlaceBlock, Encoded, Padded;
      mfb, reg, fifoPtr := mfb0, reg0, fifoPtr0;
      var segment := 0;
      while segment < |blockList|
        invariant 0 <= segment <= |blockList|
        invariant Filling(m, mfb, reg, PlaceBlocks(m, lay, blockList, segment).cur)
        invariant fifoPtr == |PlaceBlocks(m, lay, blockList, segment).sent|
        invariant wordsCnt == old(wordsCnt) + (fifoPtr - fifoPtr0)
        invariant written == before + Encoded(m, PlaceBlocks(m, lay, blockList, segment).sent)
      {
        var first, last := segment == 0, segment == |blockList| - 1;
        assert AsSlot(m, blockList[segment], first, last) == BlockSlot(m, blockList, segment);
        ChunkStep(m, blockList, segment, if first then START else Progress(Some([]), []), []);
        mfb, reg, fifoPtr := PlaceOne(mfb, reg, fifoPtr, blockList[segment], first, last,
                                      PlaceBlocks(m, lay, blockList, segment), before);
        segment := segment + 1;
      }
    }
  }

  // The slot of a block.
  function AsSlot(m: Mfb, block: seq<byte>, first: bool, last: bool): Slot
    requires 0 < |block|
  {
    Slot(Padded(m, block), first, last, if last then |block| - 1 else 0, true)
  }

  lemma DoneMeans(m: Mfb, mfb: MfbStruct, reg: nat, first: bool)
    requires mfb.Shaped(m) && reg < m.regions
    ensures RegionDone(m, mfb, reg, first) <==> |mfb.word[reg]| == m.regionSize || (first && mfb.sof[reg])
  {
  }

  lemma PlaceBlockCases(m: Mfb, lay: Layout, block: seq<byte>, first: bool, last: bool)
    requires m.Valid() && 0 < |block|
    ensures var s, c := AsSlot(m, block, first, last), Settle(m, lay.cur, first);
      && s == Slot(Padded(m, block), first, last, if last then |block| - 1 else 0, true)
      && PlaceBlock(m, lay, s) == if |c| == m.Slots() then Layout(lay.sent + [c], [] + [s])
        else Layout(lay.sent, c + [s])
  {
    var s := AsSlot(m, block, first, last);
    assert [] + [s] == [s];
  }

  lemma NothingEncoded(m: Mfb)
    ensures Encoded(m, []) == []
  {
  }

  lemma EncodedAppend(m: Mfb, sent: seq<seq<Slot>>, c: seq<Slot>)
    ensures Encoded(m, sent + [c]) == Encoded(m, sent) + [Encode(m, c, Flat(c))]
  {
    hide Encode, Flat;
  }

  lemma ReadyShaped(m: Mfb, mfb: MfbStruct, reg: nat, c: seq<Slot>)
    requires Ready(m, mfb, reg, c)
    ensures mfb.Shaped(m) && reg < m.regions
  {
  }

  lemma FillingShaped(m: Mfb, mfb: MfbStruct, reg: nat, cur: seq<Slot>)
    requires Filling(m, mfb, reg, cur)
    ensures mfb.Shaped(m) && reg < m.regions && |mfb.word| == |mfb.sof| == m.regions
  {
  }

  lemma RepresentsShaped(m: Mfb, mfb: MfbStruct, c: seq<Slot>)
    requires Represents(m, mfb, c)
    ensures mfb.Shaped(m)
  {
  }

  lemma MarkUsedValid(m: Mfb, c: seq<Slot>)
    requires ValidSlots(m, c)
    ensures ValidSlots(m, MarkUsed(c))
  {
  }

  // A fresh word takes the next block in its first region.
  lemma ResetReady(m: Mfb)
    requires m.Valid()
    ensures 0 < |ResetMfbStruct(m).word| && 0 < |ResetMfbStruct(m).sof|
    ensures Ready(m, ResetMfbStruct(m), 0, []) && |ResetMfbStruct(m).word[0]| == 0 && !ResetMfbStruct(m).sof[0]
  {
    ResetFilling(m);
  }
}
