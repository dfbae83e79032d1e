// The manual data buffer of the memory tester: written and read slice by slice by the Python
// tool, and from hexadecimal text by the C tool.
module AmmBuffer {
  import opened Numbers
  import opened HexDigits
  import opened SliceCodec

  // Registers of the generator; the data register shows the buffer at (address, slice).
  class AmmDevice {
    var addr: nat
    var slice: nat
    var burst: nat
    var data: map<(nat, nat), nat>

    constructor (burst: nat)
      ensures this.burst == burst
    {
      addr, slice, this.burst, data := 0, 0, burst, map[];
    }

    function At(b: nat, s: nat): nat
      reads this`data
    {
      if (b, s) in data then data[(b, s)] else 0
    }

    // The first n slices of one burst.
    function Row(b: nat, n: nat): (r: seq<nat>)
      reads this`data
      ensures |r| == n && forall s :: 0 <= s < n ==> r[s] == At(b, s)
    {
      if n == 0 then [] else Row(b, n - 1) + [At(b, n - 1)]
    }

    // Address, slice and data register written one after the other.
    method WriteSlice(b: nat, s: nat, v: nat)
      modifies this`addr, this`slice, this`data
      ensures addr == b && slice == s
      ensures data == old(data)[(b, s) := v]
    {
      addr := b;
      slice := s;
      data := data[(addr, slice) := v];
    }

    method ReadSlice(b: nat, s: nat) returns (v: nat)
      modifies this`addr, this`slice
      ensures addr == b && slice == s && v == At(b, s)
    {
      addr := b;
      slice := s;
      v := At(addr, slice);
    }
  }

  lemma PackOne(w: nat, row: seq<nat>, i: nat)
    requires i < |row|
    ensures Pack(w, row[..i + 1]) == Pack(w, row[..i]) + Shl(row[i], Times(i, w))
  {
    assert row[..i + 1] == row[..i] + [row[i]];
    PackAppend(w, row[..i], [row[i]]);
    assert Pack(w, [row[i]]) == row[i] by { assert [row[i]][1..] == []; ShlIsZero(w); }
  }

  // ---------------------------------------------------------------- the Python tool

  class MemTester {
    const comp: AmmDevice
    const miWidth: nat
    const memWidth: nat

    constructor (comp: AmmDevice, miWidth: nat, memWidth: nat)
      requires miWidth > 0
      ensures this.comp == comp && this.miWidth == miWidth && this.memWidth == memWidth
    {
      this.comp, this.miWidth, this.memWidth := comp, miWidth, memWidth;
    }

    // The least number of slices that hold a memory word.
    function SliceCount(): (n: nat)
      requires miWidth > 0
      ensures n * miWidth >= memWidth && (memWidth > 0 ==> (n - 1) * miWidth < memWidth)
    {
      CeilDivIs(memWidth, miWidth);
      CeilDiv(memWidth, miWidth)
    }

    // amm_gen_set_buff
    method SetBuff(b: nat, val: nat)
      requires miWidth > 0
      modifies comp`addr, comp`slice, comp`data
      ensures comp.addr == old(comp.addr)
      ensures comp.Row(b, SliceCount()) == Unpack(miWidth, val, SliceCount())
      ensures forall c: nat, s: nat :: c != b || s >= SliceCount() ==> comp.At(c, s) == old(comp.At(c, s))
    {
      var prevAddr := comp.addr;
      var slices := CeilDiv(memWidth, miWidth);
      ghost var want := Unpack(miWidth, val, slices);
      for s := 0 to slices
        invariant forall t :: 0 <= t < s ==> comp.At(b, t) == want[t]
        invariant forall c: nat, t: nat :: c != b || t >= slices ==> comp.At(c, t) == old(comp.At(c, t))
      {
        GetBitsIs(val, miWidth, Times(s, miWidth));
        UnpackAt(miWidth, val, slices, s);
        comp.WriteSlice(b, s, GetBits(val, miWidth, Times(s, miWidth)));
      }
      comp.addr := prevAddr;
    }

    // amm_gen_get_buff
    method GetBuff() returns (data: seq<nat>)
      requires miWidth > 0
      modifies comp`addr, comp`slice
      ensures comp.addr == old(comp.addr)
      ensures |data| == comp.burst
      ensures forall b :: 0 <= b < |data| ==> data[b] == Pack(miWidth, comp.Row(b, SliceCount()))
    {
      var slices := CeilDiv(memWidth, miWidth);
      var prevAddr := comp.addr;
      data := [];
      for b := 0 to comp.burst
        invariant |data| == b && forall c :: 0 <= c < b ==> data[c] == Pack(miWidth, comp.Row(c, slices))
      {
        var val := 0;
        for s := 0 to slices
          invariant val == Pack(miWidth, comp.Row(b, slices)[..s])
        {
          var slice := comp.ReadSlice(b, s);
          PackOne(miWidth, comp.Row(b, slices), s);
          val := val + Shl(slice, Times(s, miWidth));
        }
        assert comp.Row(b, slices)[..slices] == comp.Row(b, slices);
        data := data + [val];
      }
      comp.addr := prevAddr;
    }

    // Setting every burst and reading the buffer gives the values back.
    method SetAndGet(values: seq<nat>) returns (back: seq<nat>)
      requires miWidth > 0 && comp.burst == |values|
      requires forall b :: 0 <= b < |values| ==> values[b] < Pow2(memWidth)
      modifies comp`addr, comp`slice, comp`data
      ensures comp.addr == old(comp.addr) && back == values
    {
      hide Unpack, Pack, Pow2;
      var n := SliceCount();
      for b := 0 to |values|
        invariant comp.addr == old(comp.addr)
        invariant forall c :: 0 <= c < b ==> comp.Row(c, n) == Unpack(miWidth, values[c], n)
      {
        label before: SetBuff(b, values[b]);
        forall c | 0 <= c < b
          ensures comp.Row(c, n) == Unpack(miWidth, values[c], n)
        {
          assert comp.Row(c, n) == old@before(comp.Row(c, n));
        }
      }
      back := GetBuff();
      forall b | 0 <= b < |values|
        ensures back[b] == values[b]
      {
        FitsSlices(miWidth, memWidth, values[b]);
      }
    }
  }

  lemma FitsSlices(mi: nat, width: nat, val: nat)
    requires mi > 0 && val < Pow2(width)
    ensures Pack(mi, Unpack(mi, val, CeilDiv(width, mi))) == val
  {
    CeilDivCovers(width, mi);
    Pow2Monotone(width, Times(CeilDiv(width, mi), mi));
    PackUnpack(mi, val, CeilDiv(width, mi));
  }

  // ---------------------------------------------------------------- the C tool

  const TMP_LEN: nat := 8

  // a - b of 32-bit unsigned integers.
  function Sub32(a: int, b: int): nat {
    (a - b) % 0x1_0000_0000
  }

  // strtoul(tmp, NULL, 16) of eight hex digits.
  function Strtoul(tmp: string): nat {
    HexVal(tmp)
  }

  // What the buffer holds after pos characters from the end of data.
  ghost predicate Buffered(tmp: string, data: string, pos: nat)
    requires pos <= |data|
  {
    tmp == Repeat('0', TMP_LEN - pos % TMP_LEN) + data[|data| - pos..|data| - pos / TMP_LEN * TMP_LEN]
  }

  // The slices of the groups completed by then.
  ghost predicate Sliced(slices: seq<nat>, data: string, pos: nat)
    requires pos <= |data|
  {
    var q := pos / TMP_LEN;
    && q <= |slices|
    && Pack(32, slices[..q]) == HexVal(data[|data| - q * TMP_LEN..])
    && (forall s :: 0 <= s < q ==> slices[s] < Pow2(32))
    && (forall s :: q <= s < |slices| ==> slices[s] == 0)
  }

  lemma TmpIndex(pos: nat)
    requires pos < 0x1_0000_0000
    ensures Sub32(Sub32(TMP_LEN, pos), 1) % TMP_LEN == TMP_LEN - 1 - pos % TMP_LEN
  {
  }

  // One more character at its place.
  lemma BufferNext(tmp: string, data: string, pos: nat)
    requires pos < |data| && Buffered(tmp, data, pos)
    ensures |tmp| == TMP_LEN
    ensures var next := tmp[TMP_LEN - 1 - pos % TMP_LEN := data[|data| - pos - 1]];
      if (pos + 1) % TMP_LEN == 0 then next == Group(data, pos / TMP_LEN) else Buffered(next, data, pos + 1)
  {
    var next := tmp[TMP_LEN - 1 - pos % TMP_LEN := data[|data| - pos - 1]];
    assert next == Repeat('0', TMP_LEN - 1 - pos % TMP_LEN) + data[|data| - pos - 1..|data| - pos / TMP_LEN * TMP_LEN];
  }

  // The q-th group of eight digits from the end.
  function Group(data: string, q: nat): string
    requires 8 * q + 8 <= |data|
  {
    data[|data| - 8 * q - 8..|data| - 8 * q]
  }

  lemma BufferEmpty(data: string, pos: nat)
    requires pos <= |data| && pos % TMP_LEN == 0
    ensures Buffered(Repeat('0', TMP_LEN), data, pos)
  {
    assert data[|data| - pos..|data| - pos] == "";
    assert Repeat('0', TMP_LEN) + "" == Repeat('0', TMP_LEN);
  }

  lemma SlicedSame(slices: seq<nat>, data: string, pos: nat)
    requires pos < |data| && (pos + 1) % TMP_LEN != 0 && Sliced(slices, data, pos)
    ensures Sliced(slices, data, pos + 1)
  {
    hide Pack, HexVal;
  }

  lemma SlicedFull(slices: seq<nat>, data: string, pos: nat)
    requires pos < |data| <= 8 * |slices| && (pos + 1) % TMP_LEN == 0 && Sliced(slices, data, pos)
    ensures pos / TMP_LEN < |slices|
    ensures Sliced(slices[pos / TMP_LEN := HexVal(Group(data, pos / TMP_LEN))], data, pos + 1)
  {
    hide Pack, HexVal;
    SliceNext(slices, data, pos / TMP_LEN);
  }

  // A group of eight digits becomes the next slice.
  lemma SliceNext(slices: seq<nat>, data: string, q: nat)
    requires 8 * q + 8 <= |data| && Sliced(slices, data, 8 * q) && q < |slices|
    ensures Sliced(slices[q := HexVal(Group(data, q))], data, 8 * q + 8)
  {
    hide Pack, HexVal;
    var group, rest := Group(data, q), data[|data| - 8 * q..];
    var after := slices[q := HexVal(group)];
    HexBound(group);
    GroupPack(slices, q, group, rest);
    assert after[..q] == slices[..q];
    assert data[|data| - 8 * q - 8..] == group + rest;
  }

  lemma GroupPack(slices: seq<nat>, q: nat, group: string, rest: string)
    requires q < |slices| && |rest| == 8 * q && Pack(32, slices[..q]) == HexVal(rest)
    ensures Pack(32, slices[q := HexVal(group)][..q + 1]) == HexVal(group + rest)
  {
    var after := slices[q := HexVal(group)];
    assert after[..q + 1][..q] == slices[..q] && after[..q] == slices[..q];
    PackOne(32, after, q);
    HexAppend(group, rest);
    Times32(q);
  }

  lemma {:induction false} Times32(q: nat)
    ensures Times(q, 32) == 4 * (8 * q)
  {
    if q > 0 { Times32(q - 1); }
  }

  // What is left in the buffer is the last, shorter group.
  lemma LastSlice(slices: seq<nat>, data: string, tmp: string)
    requires Sliced(slices, data, |data|) && Buffered(tmp, data, |data|) && |data| % TMP_LEN != 0
    requires |data| / TMP_LEN < |slices|
    ensures Pack(32, slices[|data| / TMP_LEN := HexVal(tmp)]) == HexVal(data) && HexVal(tmp) < Pow2(32)
  {
    hide Sliced, Buffered, Pack, HexVal, Pow2;
    var q := |data| / TMP_LEN;
    BufferedLast(tmp, data, q);
    SlicedLast(slices, data, q);
    LastGroup(slices, data, q, tmp);
  }

  lemma BufferedLast(tmp: string, data: string, q: nat)
    requires Buffered(tmp, data, |data|) && q == |data| / TMP_LEN && |data| % TMP_LEN != 0
    ensures 8 * q < |data| < 8 * q + 8 && tmp == Repeat('0', 8 * q + 8 - |data|) + data[..|data| - 8 * q]
  {
    assert TMP_LEN - |data| % TMP_LEN == 8 * q + 8 - |data|;
    assert |data| / TMP_LEN * TMP_LEN == 8 * q;
  }

  lemma SlicedLast(slices: seq<nat>, data: string, q: nat)
    requires Sliced(slices, data, |data|) && q == |data| / TMP_LEN
    ensures q <= |slices| && 8 * q <= |data| && Pack(32, slices[..q]) == HexVal(data[|data| - 8 * q..])
    ensures forall s :: q <= s < |slices| ==> slices[s] == 0
  {
    hide Pack, HexVal;
    assert q * TMP_LEN == 8 * q;
  }

  lemma LastGroup(slices: seq<nat>, data: string, q: nat, tmp: string)
    requires q < |slices| && 8 * q < |data| < 8 * q + 8
    requires tmp == Repeat('0', 8 * q + 8 - |data|) + data[..|data| - 8 * q]
    requires Pack(32, slices[..q]) == HexVal(data[|data| - 8 * q..])
    requires forall s :: q <= s < |slices| ==> slices[s] == 0
    ensures Pack(32, slices[q := HexVal(tmp)]) == HexVal(data) && HexVal(tmp) < Pow2(32)
  {
    hide Pack, HexVal, Pow2;
    var group, rest := data[..|data| - 8 * q], data[|data| - 8 * q..];
    assert group + rest == data;
    HexZeros(8 * q + 8 - |data|, group);
    HexBound(tmp);
    GroupPack(slices, q, group, rest);
    TailZeros(slices[q := HexVal(tmp)], q + 1);
  }

  lemma TailZeros(slices: seq<nat>, q: nat)
    requires q <= |slices| && forall s :: q <= s < |slices| ==> slices[s] == 0
    ensures Pack(32, slices) == Pack(32, slices[..q])
  {
    var n := |slices| - q;
    assert slices == slices[..q] + Repeat<nat>(0, n);
    PackAppend(32, slices[..q], Repeat<nat>(0, n));
    PackZeros(32, n);
    ShlIsZero(Times(q, 32));
  }

  lemma NoLastSlice(slices: seq<nat>, data: string)
    requires Sliced(slices, data, |data|) && |data| % TMP_LEN == 0
    ensures Pack(32, slices) == HexVal(data)
  {
    hide Pack, HexVal;
    var q := |data| / TMP_LEN;
    assert data[|data| - q * TMP_LEN..] == data;
    TailZeros(slices, q);
  }

  lemma SlicedNothing(slices: seq<nat>, data: string)
    requires forall s :: 0 <= s < |slices| ==> slices[s] == 0
    ensures Sliced(slices, data, 0)
  {
    assert data[|data|..] == "" && slices[..0] == [];
  }

  lemma SlicedBound(slices: seq<nat>, data: string, pos: nat)
    requires pos <= |data| && Sliced(slices, data, pos)
    ensures forall s :: 0 <= s < |slices| ==> slices[s] < Pow2(32)
  {
  }

  // One turn of the loop over the characters, last one first.
  method TakeChar(slices: array<nat>, tmp: array<char>, data: string, pos: nat)
    requires pos < |data| <= 8 * slices.Length && |data| < 0x8000_0000 && tmp.Length == TMP_LEN
    requires Buffered(tmp[..], data, pos) && Sliced(slices[..], data, pos)
    modifies slices, tmp
    ensures Buffered(tmp[..], data, pos + 1) && Sliced(slices[..], data, pos + 1)
  {
    hide Pack, HexVal, Sliced, Buffered, Pow2, Group;
    TmpIndex(pos);
    BufferNext(tmp[..], data, pos);
    tmp[Sub32(Sub32(TMP_LEN, pos), 1) % TMP_LEN] := data[|data| - 1 - pos];
    if (pos + 1) % TMP_LEN == 0 && pos != 0 {
      SlicedFull(slices[..], data, pos);
      ghost var was := slices[..];
      slices[pos / TMP_LEN] := Strtoul(tmp[..]);
      assert slices[..] == was[pos / TMP_LEN := HexVal(Group(data, pos / TMP_LEN))];
      for t := 0 to TMP_LEN
        invariant forall u :: 0 <= u < t ==> tmp[u] == '0'
        invariant slices[..] == was[pos / TMP_LEN := HexVal(Group(data, pos / TMP_LEN))]
      {
        tmp[t] := '0';
      }
      assert tmp[..] == Repeat('0', TMP_LEN);
      BufferEmpty(data, pos + 1);
    } else {
      SlicedSame(slices[..], data, pos);
    }
  }

  // AMMHexaToMISlices: the slices, low one first, make up the number the digits write.
  method AMMHexaToMISlices(slicesCnt: nat, slices: array<nat>, data: string)
    requires slices.Length == slicesCnt && |data| <= 8 * slicesCnt && |data| < 0x8000_0000 && AllHex(data)
    modifies slices
    ensures Pack(32, slices[..]) == HexVal(data)
    ensures forall s :: 0 <= s < slicesCnt ==> slices[s] < Pow2(32)
  {
    hide Pack, HexVal, Sliced, Buffered, Pow2;
    var tmp := new char[TMP_LEN](_ => '0');
    assert tmp[..] == Repeat('0', TMP_LEN);
    for s := 0 to slicesCnt
      invariant tmp[..] == Repeat('0', TMP_LEN)
      invariant forall t :: 0 <= t < s ==> slices[t] == 0
    {
      slices[s] := 0;
    }
    SlicedNothing(slices[..], data);
    BufferEmpty(data, 0);
    var pos := 0;
    var i := |data| - 1;
    while i >= 0
      invariant pos == |data| - 1 - i && 0 <= pos <= |data|
      invariant Buffered(tmp[..], data, pos) && Sliced(slices[..], data, pos)
      decreases i
    {
      TakeChar(slices, tmp, data, pos);
      i, pos := i - 1, pos + 1;
    }
    SlicedBound(slices[..], data, pos);
    if |data| % TMP_LEN != 0 {
      LastSlice(slices[..], data, tmp[..]);
      slices[|data| / TMP_LEN] := Strtoul(tmp[..]);
    } else {
      NoLastSlice(slices[..], data);
    }
  }

  // Slices in print order, the highest first, each as %08X.
  function Printed(row: seq<nat>): (text: string)
    ensures |text| == 8 * |row|
  {
    if row == [] then "" else Printed(row[1..]) + Digits(row[0], 8)
  }

  // The print is the number of the slices in fixed width.
  lemma {:induction false} PrintedIs(row: seq<nat>)
    requires forall s :: 0 <= s < |row| ==> row[s] < Pow2(32)
    ensures Printed(row) == Digits(Pack(32, row), 8 * |row|)
  {
    hide Digits, Shl, Pow2;
    if row != [] {
      PrintedIs(row[1..]);
      DigitsTwo(Pack(32, row[1..]), row[0], 8 * |row| - 8, 8);
    } else {
      NoDigits();
    }
  }

  lemma PrintStep(row: seq<nat>, s: nat)
    requires s < |row|
    ensures Printed(row[s..]) == Printed(row[s + 1..]) + Digits(row[s], 8)
  {
    assert row[s..][1..] == row[s + 1..];
  }

  class MemTesterC {
    const component: AmmDevice
    const slicesCnt: nat

    constructor (component: AmmDevice, slicesCnt: nat)
      ensures this.component == component && this.slicesCnt == slicesCnt
    {
      this.component, this.slicesCnt := component, slicesCnt;
    }

    // FillManualBuff: the burst holds the number of the digits, nothing else changes.
    method FillManualBuff(burst: nat, data: string)
      requires |data| <= 8 * slicesCnt && |data| < 0x8000_0000 && AllHex(data)
      modifies component`addr, component`slice, component`data
      ensures component.addr == old(component.addr)
      ensures Pack(32, component.Row(burst, slicesCnt)) == HexVal(data)
      ensures forall s :: 0 <= s < slicesCnt ==> component.At(burst, s) < Pow2(32)
      ensures forall c: nat, s: nat :: c != burst || s >= slicesCnt ==> component.At(c, s) == old(component.At(c, s))
    {
      hide Pack, HexVal, Pow2;
      var slicedData := new nat[slicesCnt];
      AMMHexaToMISlices(slicesCnt, slicedData, data);
      ghost var want := slicedData[..];
      var prevAddr := component.addr;
      for s := 0 to slicesCnt
        invariant slicedData[..] == want && forall t :: 0 <= t < s ==> component.At(burst, t) == want[t]
        invariant forall c: nat, t: nat :: c != burst || t >= slicesCnt ==>
          component.At(c, t) == old(component.At(c, t))
      {
        component.WriteSlice(burst, s, slicedData[s]);
      }
      component.addr := prevAddr;
      assert component.Row(burst, slicesCnt) == want;
    }

    // PrintManualBuff: one line for each burst.
    method PrintManualBuff() returns (lines: seq<string>)
      modifies component`addr, component`slice
      ensures component.addr == old(component.addr)
      ensures |lines| == component.burst
      ensures forall b :: 0 <= b < |lines| ==> lines[b] == "0x" + Printed(component.Row(b, slicesCnt))
    {
      hide Digits, Printed;
      var prevAddr := component.addr;
      lines := [];
      for b := 0 to component.burst
        invariant |lines| == b && forall c :: 0 <= c < b ==> lines[c] == "0x" + Printed(component.Row(c, slicesCnt))
      {
        ghost var row := component.Row(b, slicesCnt);
        NothingPrinted(row);
        var text := "";
        var s := slicesCnt;
        while s > 0
          invariant 0 <= s <= slicesCnt && text == Printed(row[s..])
        {
          s := s - 1;
          var v := component.ReadSlice(b, s);
          PrintStep(row, s);
          text := text + Digits(v, 8);
        }
        assert row[0..] == row;
        lines := lines + ["0x" + text];
      }
      component.addr := prevAddr;
    }

    // A text of hex digits that is filled in is printed in upper case after leading zeros.
    method FillAndPrint(burst: nat, data: string) returns (lines: seq<string>)
      requires |data| <= 8 * slicesCnt && |data| < 0x8000_0000 && AllHex(data) && burst < component.burst
      modifies component`addr, component`slice, component`data
      ensures component.addr == old(component.addr) && |lines| == component.burst
      ensures lines[burst] == "0x" + (Repeat('0', 8 * slicesCnt - |data|) + Upper(data))
    {
      hide Pack, HexVal, Pow2, Digits, Printed, Upper, AllHex;
      FillManualBuff(burst, data);
      PrintedIs(component.Row(burst, slicesCnt));
      DigitsBack(data, 8 * slicesCnt);
      lines := PrintManualBuff();
    }
  }

  lemma NothingPrinted(row: seq<nat>)
    ensures Printed(row[|row|..]) == ""
  {
    assert row[|row|..] == [];
  }
}
