// The data logger's register access: selectors are cached, wide values cross in slices.
module DataLogger {
  import opened Numbers
  import opened Options
  import opened SliceCodec

  // Statistics ids.
  const CNTER_CNT: nat := 0
  const VALUE_CNT: nat := 1
  const MI_DATA_WIDTH: nat := 2
  const CTRLO_WIDTH: nat := 3
  const CTRLI_WIDTH: nat := 4
  const CNTER_WIDTH: nat := 5
  const VALUE_WIDTH: nat := 6
  const VALUE_EN: nat := 7
  const SUM_EXTRA_WIDTH: nat := 8
  const HIST_BOX_CNT: nat := 9
  const HIST_BOX_WIDTH: nat := 10
  const CTRLO: nat := 11
  const CTRLI: nat := 12
  const CNTER: nat := 13
  const VALUE_MIN: nat := 14
  const VALUE_MAX: nat := 15
  const VALUE_SUM: nat := 16
  const VALUE_HIST: nat := 17

  // The selector registers of the device.
  datatype Regs = Regs(stat: nat, index: nat, slice: nat, hist: nat)

  // What the value register shows under each selection.
  type Contents = map<Regs, nat>

  function Shown(values: Contents, regs: Regs): nat {
    if regs in values then values[regs] else 0
  }

  class Device {
    var regs: Regs
    var values: Contents

    constructor (regs: Regs, values: Contents)
      ensures this.regs == regs && this.values == values
    {
      this.regs, this.values := regs, values;
    }

    method ReadValue() returns (v: nat)
      ensures v == Shown(values, regs)
    {
      v := Shown(values, regs);
    }

    // Only the control output can be written.
    method WriteValue(v: nat)
      modifies this`values
      ensures values == if regs.stat == CTRLO then old(values)[regs := v] else old(values)
    {
      if regs.stat == CTRLO {
        values := values[regs := v];
      }
    }
  }

  // The component's parameters, as read from the device.
  datatype Config = Config(cnterCnt: nat, valueCnt: nat, miDataWidth: nat, ctrloWidth: nat, ctrliWidth: nat,
    cnterWidth: nat, valueWidth: seq<nat>, valueEn: seq<nat>, sumExtraWidth: seq<nat>, histBoxCnt: seq<nat>,
    histBoxWidth: seq<nat>)

  // ---------------------------------------------------------------- without a cache

  function Chosen(o: Option<nat>, was: nat): nat {
    if o.Some? then o.value else was
  }

  // The registers after writing every selector that is given.
  function Selected(r: Regs, stat: Option<nat>, index: Option<nat>, slice: Option<nat>, hist: Option<nat>): Regs {
    Regs(Chosen(stat, r.stat), Chosen(index, r.index), Chosen(slice, r.slice), Chosen(hist, r.hist))
  }

  // The first n slices under a selection.
  function Slices(values: Contents, r: Regs, n: nat): (s: seq<nat>)
    ensures |s| == n && forall i :: 0 <= i < n ==> s[i] == Shown(values, r.(slice := i))
  {
    seq(n, i requires 0 <= i < n => Shown(values, r.(slice := i)))
  }

  function At(widths: seq<nat>, index: nat): Option<nat> {
    if index < |widths| then Some(widths[index]) else None
  }

  // The width of a statistic; a missing entry is an error.
  function StatWidth(c: Config, stat: nat, index: nat): Option<nat> {
    if stat == CTRLO then Some(c.ctrloWidth)
    else if stat == CTRLI then Some(c.ctrliWidth)
    else if stat == CNTER then Some(c.cnterWidth)
    else if stat == VALUE_MIN || stat == VALUE_MAX then At(c.valueWidth, index)
    else if stat == VALUE_SUM then
      (if index < |c.valueWidth| && index < |c.sumExtraWidth|
       then Some(c.valueWidth[index] + c.sumExtraWidth[index])
       else None)
    else if stat == VALUE_HIST then At(c.histBoxWidth, index)
    else Some(c.miDataWidth)
  }

  // A wide value read with every selector written each time; a zero slice width is an error.
  function WideRead(values: Contents, r: Regs, width: nat, mi: nat): Option<nat> {
    if mi == 0 then None else Some(Pack(mi, Slices(values, r, CeilDiv(width, mi))))
  }

  function StatValue(values: Contents, r: Regs, c: Config, stat: nat, index: nat): Option<nat> {
    match StatWidth(c, stat, index)
    case None => None
    case Some(width) => WideRead(values, r.(stat := stat, index := index), width, c.miDataWidth)
  }

  function HistValue(values: Contents, r: Regs, c: Config, index: nat, addr: nat): Option<nat> {
    match At(c.histBoxWidth, index)
    case None => None
    case Some(width) => WideRead(values, r.(stat := VALUE_HIST, index := index, hist := addr), width, c.miDataWidth)
  }

  function RawStat(values: Contents, hist: nat, stat: nat, index: nat): nat {
    Shown(values, Regs(stat, index, 0, hist))
  }

  function RawList(values: Contents, hist: nat, stat: nat, n: nat): (s: seq<nat>)
    ensures |s| == n && forall i :: 0 <= i < n ==> s[i] == RawStat(values, hist, stat, i)
  {
    seq(n, i requires 0 <= i < n => RawStat(values, hist, stat, i))
  }

  // The configuration the device holds.
  function ConfigOf(values: Contents, hist: nat): Config {
    var n := RawStat(values, hist, VALUE_CNT, 0);
    Config(RawStat(values, hist, CNTER_CNT, 0), n, RawStat(values, hist, MI_DATA_WIDTH, 0),
      RawStat(values, hist, CTRLO_WIDTH, 0), RawStat(values, hist, CTRLI_WIDTH, 0),
      RawStat(values, hist, CNTER_WIDTH, 0), RawList(values, hist, VALUE_WIDTH, n),
      RawList(values, hist, VALUE_EN, n), RawList(values, hist, SUM_EXTRA_WIDTH, n),
      RawList(values, hist, HIST_BOX_CNT, n), RawList(values, hist, HIST_BOX_WIDTH, n))
  }

  // ---------------------------------------------------------------- the logger

  class DataLogger {
    const comp: Device
    var lastStat: Option<nat>
    var lastIndex: Option<nat>
    var lastSlice: Option<nat>
    var lastHistAddr: Option<nat>
    var config: Config

    // A cached selector equals the device's register.
    ghost predicate Coherent()
      reads this, comp
    {
      && (lastStat.Some? ==> comp.regs.stat == lastStat.value)
      && (lastIndex.Some? ==> comp.regs.index == lastIndex.value)
      && (lastSlice.Some? ==> comp.regs.slice == lastSlice.value)
      && (lastHistAddr.Some? ==> comp.regs.hist == lastHistAddr.value)
    }

    // Opening the component: the caches are empty whatever its registers hold.
    constructor (comp: Device)
      modifies comp`regs
      ensures this.comp == comp && Coherent() && comp.regs.hist == old(comp.regs.hist)
      ensures config == ConfigOf(comp.values, comp.regs.hist)
    {
      this.comp := comp;
      lastStat, lastIndex, lastSlice, lastHistAddr := None, None, None, None;
      config := Config(0, 0, 0, 0, 0, 0, [], [], [], [], []);
      new;
      RstSelection();
      LoadConfig();
    }

    // _select: the device ends up as if every given selector had been written.
    method Select(stat: Option<nat>, index: Option<nat>, slice: Option<nat>, histAddr: Option<nat>)
      requires Coherent()
      modifies this`lastStat, this`lastIndex, this`lastSlice, this`lastHistAddr, comp`regs
      ensures Coherent() && comp.regs == Selected(old(comp.regs), stat, index, slice, histAddr)
    {
      if stat.Some? && lastStat != stat {
        comp.regs := comp.regs.(stat := stat.value);
        lastStat := stat;
      }
      if index.Some? && lastIndex != index {
        comp.regs := comp.regs.(index := index.value);
        lastIndex := index;
      }
      if slice.Some? && lastSlice != slice {
        comp.regs := comp.regs.(slice := slice.value);
        lastSlice := slice;
      }
      if histAddr.Some? && lastHistAddr != histAddr {
        comp.regs := comp.regs.(hist := histAddr.value);
        lastHistAddr := histAddr;
      }
    }

    // _rst_selection
    method RstSelection()
      modifies this`lastStat, this`lastIndex, this`lastSlice, this`lastHistAddr, this`config, comp`regs
      ensures Coherent() && comp.regs.hist == old(comp.regs.hist) && config == ConfigOf(comp.values, comp.regs.hist)
    {
      lastStat, lastIndex, lastSlice, lastHistAddr := None, None, None, None;
      LoadConfig();
    }

    // rst: the reset leaves the device in some new state, which no cached selector outlives.
    method Rst(after: Regs, values: Contents)
      modifies this, comp
      ensures Coherent() && comp.values == values && config == ConfigOf(values, after.hist)
    {
      comp.regs, comp.values := after, values;
      RstSelection();
    }

    // _load_slices
    method LoadSlices(width: nat) returns (value: Option<nat>)
      requires Coherent()
      modifies this`lastStat, this`lastIndex, this`lastSlice, this`lastHistAddr, comp`regs
      ensures Coherent() && comp.regs == old(comp.regs).(slice := comp.regs.slice)
      ensures value == WideRead(comp.values, old(comp.regs), width, config.miDataWidth)
    {
      var mi := config.miDataWidth;
      if mi == 0 {
        return None;
      }
      var slices := CeilDiv(width, mi);
      var v := 0;
      ghost var all := Slices(comp.values, comp.regs, slices);
      for i := 0 to slices
        invariant Coherent() && comp.regs == old(comp.regs).(slice := comp.regs.slice)
        invariant v == Pack(mi, all[..i])
      {
        Select(None, None, Some(i), None);
        var part := comp.ReadValue();
        PackNext(mi, all, i);
        v := v + Shl(part, Times(i, mi));
      }
      assert all[..slices] == all;
      value := Some(v);
    }

    method StatRaw(stat: nat, index: nat) returns (v: nat)
      requires Coherent()
      modifies this`lastStat, this`lastIndex, this`lastSlice, this`lastHistAddr, comp`regs
      ensures Coherent() && comp.regs == Regs(stat, index, 0, old(comp.regs.hist))
      ensures v == RawStat(comp.values, comp.regs.hist, stat, index)
    {
      Select(Some(stat), Some(index), None, None);
      Select(None, None, Some(0), None);
      v := comp.ReadValue();
    }

    // stat_read: what a version without caches would return.
    method StatRead(stat: nat, index: nat, enSlices: bool) returns (value: Option<nat>)
      requires Coherent()
      modifies this`lastStat, this`lastIndex, this`lastSlice, this`lastHistAddr, comp`regs
      ensures Coherent() && comp.regs.hist == old(comp.regs.hist)
      ensures value == if enSlices then StatValue(comp.values, old(comp.regs), config, stat, index)
                       else Some(RawStat(comp.values, comp.regs.hist, stat, index))
    {
      if !enSlices {
        var v := StatRaw(stat, index);
        return Some(v);
      }
      Select(Some(stat), Some(index), None, None);
      var width := StatWidth(config, stat, index);
      if width.None? {
        return None;
      }
      value := LoadSlices(width.value);
    }

    // hist_read
    method HistRead(index: nat, addr: nat) returns (value: Option<nat>)
      requires Coherent()
      modifies this`lastStat, this`lastIndex, this`lastSlice, this`lastHistAddr, comp`regs
      ensures Coherent()
      ensures value == HistValue(comp.values, old(comp.regs), config, index, addr)
    {
      Select(Some(VALUE_HIST), Some(index), None, Some(addr));
      if index >= |config.histBoxWidth| {
        return None;
      }
      value := LoadSlices(config.histBoxWidth[index]);
    }

    // load_config
    method LoadConfig()
      requires Coherent()
      modifies this`lastStat, this`lastIndex, this`lastSlice, this`lastHistAddr, this`config, comp`regs
      ensures Coherent() && comp.regs.hist == old(comp.regs.hist) && config == ConfigOf(comp.values, comp.regs.hist)
    {
      hide RawStat;
      ghost var hist := comp.regs.hist;
      var cnterCnt := StatRaw(CNTER_CNT, 0);
      var valueCnt := StatRaw(VALUE_CNT, 0);
      var mi := StatRaw(MI_DATA_WIDTH, 0);
      var ctrlo := StatRaw(CTRLO_WIDTH, 0);
      var ctrli := StatRaw(CTRLI_WIDTH, 0);
      var cnter := StatRaw(CNTER_WIDTH, 0);
      var valueWidth, valueEn, sumExtra, boxCnt, boxWidth := [], [], [], [], [];
      for i := 0 to valueCnt
        invariant Coherent() && comp.regs.hist == hist
        invariant valueWidth == RawList(comp.values, hist, VALUE_WIDTH, i)
        invariant valueEn == RawList(comp.values, hist, VALUE_EN, i)
        invariant sumExtra == RawList(comp.values, hist, SUM_EXTRA_WIDTH, i)
        invariant boxCnt == RawList(comp.values, hist, HIST_BOX_CNT, i)
        invariant boxWidth == RawList(comp.values, hist, HIST_BOX_WIDTH, i)
      {
        var en := StatRaw(VALUE_EN, i);
        valueEn := valueEn + [en];
        var w := StatRaw(VALUE_WIDTH, i);
        valueWidth := valueWidth + [w];
        var e := StatRaw(SUM_EXTRA_WIDTH, i);
        sumExtra := sumExtra + [e];
        var c := StatRaw(HIST_BOX_CNT, i);
        boxCnt := boxCnt + [c];
        var b := StatRaw(HIST_BOX_WIDTH, i);
        boxWidth := boxWidth + [b];
      }
      config := Config(cnterCnt, valueCnt, mi, ctrlo, ctrli, cnter, valueWidth, valueEn, sumExtra, boxCnt, boxWidth);
    }

    // set_ctrlo
    method SetCtrlo(val: nat)
      requires Coherent() && config.miDataWidth > 0
      modifies this`lastStat, this`lastIndex, this`lastSlice, this`lastHistAddr, comp
      ensures Coherent() && comp.regs.hist == old(comp.regs.hist)
      ensures var n := CeilDiv(config.ctrloWidth, config.miDataWidth);
        Slices(comp.values, Regs(11, 0, 0, comp.regs.hist), n) == Unpack(config.miDataWidth, val, n)
      ensures var n := CeilDiv(config.ctrloWidth, config.miDataWidth);
        forall r: Regs :: r.(slice := 0) != Regs(11, 0, 0, comp.regs.hist) || r.slice >= n ==>
          Shown(comp.values, r) == Shown(old(comp.values), r)
    {
      hide Unpack, GetBits, Low, Shr, Pow2, CeilDiv;
      Select(Some(CTRLO), Some(0), None, None);
      var mi := config.miDataWidth;
      var slices := CeilDiv(config.ctrloWidth, mi);
      ghost var want := Unpack(mi, val, slices);
      for i := 0 to slices
        invariant Coherent() && comp.regs == Regs(CTRLO, 0, comp.regs.slice, old(comp.regs.hist))
        invariant forall j :: 0 <= j < i ==> Shown(comp.values, Regs(CTRLO, 0, j, old(comp.regs.hist))) == want[j]
        invariant forall r: Regs :: r.(slice := 0) != Regs(CTRLO, 0, 0, old(comp.regs.hist)) || r.slice >= i ==>
          Shown(comp.values, r) == Shown(old(comp.values), r)
      {
        Select(None, None, Some(i), None);
        GetBitsIs(val, mi, Times(i, mi));
        UnpackAt(mi, val, slices, i);
        comp.WriteValue(GetBits(val, mi, Times(i, mi)));
      }
    }

    // What was set can be read back, if it fits the control output.
    method SetAndLoadCtrlo(val: nat) returns (back: Option<nat>)
      requires Coherent() && config.miDataWidth > 0 && val < Pow2(config.ctrloWidth)
      modifies this`lastStat, this`lastIndex, this`lastSlice, this`lastHistAddr, comp
      ensures Coherent() && back == Some(val)
    {
      var mi := config.miDataWidth;
      var n := CeilDiv(config.ctrloWidth, mi);
      SetCtrlo(val);
      SlicesOf(comp.values, comp.regs, CTRLO, 0, n);
      CeilDivCovers(config.ctrloWidth, mi);
      Pow2Monotone(config.ctrloWidth, Times(n, mi));
      PackUnpack(mi, val, n);
      back := StatRead(CTRLO, 0, true);
    }
  }

  lemma PackNext(w: nat, all: seq<nat>, i: nat)
    requires i < |all|
    ensures Pack(w, all[..i + 1]) == Pack(w, all[..i]) + Shl(all[i], Times(i, w))
  {
    assert all[..i + 1] == all[..i] + [all[i]];
    PackAppend(w, all[..i], [all[i]]);
    assert Pack(w, [all[i]]) == all[i] by { assert [all[i]][1..] == []; ShlIsZero(w); }
  }

  // Slices do not depend on the slice register.
  lemma SlicesOf(values: Contents, r: Regs, stat: nat, index: nat, n: nat)
    ensures Slices(values, r.(stat := stat, index := index), n) == Slices(values, Regs(stat, index, 0, r.hist), n)
  {
  }

  // ---------------------------------------------------------------- what is read back

  // Under the statistic's number the device shows the slices of v, low one first.
  ghost predicate ShowsValue(values: Contents, r: Regs, mi: nat, v: nat) {
    forall i: nat :: Shown(values, r.(slice := i)) == v / Pow2(i * mi) % Pow2(mi)
  }

  lemma {:induction false} UnpackShown(values: Contents, r: Regs, mi: nat, v: nat, n: nat)
    requires ShowsValue(values, r, mi, v)
    ensures Slices(values, r, n) == Unpack(mi, v, n)
  {
    hide Unpack, Shown, Pow2;
    forall i | 0 <= i < n
      ensures Slices(values, r, n)[i] == Unpack(mi, v, n)[i]
    {
      UnpackAt(mi, v, n, i);
      FieldIs(v, mi, i);
    }
  }

  // A value that fits the width it is read with is read back whole.
  lemma WideBack(values: Contents, r: Regs, width: nat, mi: nat, v: nat)
    requires mi > 0 && ShowsValue(values, r, mi, v) && v < Pow2(width)
    ensures WideRead(values, r, width, mi) == Some(v)
  {
    hide ShowsValue, Pow2;
    var n := CeilDiv(width, mi);
    UnpackShown(values, r, mi, v, n);
    CeilDivCovers(width, mi);
    Pow2Monotone(width, Times(n, mi));
    PackUnpack(mi, v, n);
  }

  // For every statistic, the width with which it is read: what the device reports as the
  // widths of the control output and input (3, 4), of counters (5), of values (6), as the
  // extra width of sums (8) and as the width of histogram boxes (10).
  ghost predicate FitsReported(values: Contents, hist: nat, stat: nat, index: nat, v: nat) {
    match stat
    case 11 => v < Pow2(RawStat(values, hist, 3, 0))
    case 12 => v < Pow2(RawStat(values, hist, 4, 0))
    case 13 => v < Pow2(RawStat(values, hist, 5, 0))
    case 14 => index < RawStat(values, hist, 1, 0) && v < Pow2(RawStat(values, hist, 6, index))
    case 15 => index < RawStat(values, hist, 1, 0) && v < Pow2(RawStat(values, hist, 6, index))
    case 16 =>
      && index < RawStat(values, hist, 1, 0)
      && v < Pow2(RawStat(values, hist, 6, index) + RawStat(values, hist, 8, index))
    case 17 => index < RawStat(values, hist, 1, 0) && v < Pow2(RawStat(values, hist, 10, index))
    case _ => v < Pow2(RawStat(values, hist, 2, 0))
  }

  // Whatever the device holds under a statistic is read back, if it fits the width reported
  // when the configuration was loaded; a histogram box likewise.
  lemma StatBack(values: Contents, r: Regs, hist: nat, stat: nat, index: nat, v: nat)
    requires RawStat(values, hist, 2, 0) > 0 && FitsReported(values, hist, stat, index, v)
    requires ShowsValue(values, r.(stat := stat, index := index), RawStat(values, hist, 2, 0), v)
    ensures StatValue(values, r, ConfigOf(values, hist), stat, index) == Some(v)
  {
    hide ShowsValue, Shown, Pow2, WideRead;
    var c := ConfigOf(values, hist);
    WideBack(values, r.(stat := stat, index := index), StatWidth(c, stat, index).value, c.miDataWidth, v);
  }

  lemma HistBack(values: Contents, r: Regs, hist: nat, index: nat, addr: nat, v: nat)
    requires RawStat(values, hist, 2, 0) > 0
    requires index < RawStat(values, hist, 1, 0) && v < Pow2(RawStat(values, hist, 10, index))
    requires ShowsValue(values, Regs(17, index, r.slice, addr), RawStat(values, hist, 2, 0), v)
    ensures HistValue(values, r, ConfigOf(values, hist), index, addr) == Some(v)
  {
    hide ShowsValue, Shown, Pow2, WideRead;
    WideBack(values, Regs(17, index, r.slice, addr), RawStat(values, hist, 10, index),
      RawStat(values, hist, 2, 0), v);
  }

  // The other parameters, by number, and the errors: no index beyond the reported values.
  lemma ConfigIs(values: Contents, r: Regs, hist: nat, i: nat)
    ensures var c := ConfigOf(values, hist);
      && c.cnterCnt == RawStat(values, hist, 0, 0) && c.valueCnt == RawStat(values, hist, 1, 0)
      && (i < c.valueCnt ==>
        && i < |c.valueEn| && c.valueEn[i] == RawStat(values, hist, 7, i)
        && i < |c.histBoxCnt| && c.histBoxCnt[i] == RawStat(values, hist, 9, i))
      && (i >= c.valueCnt ==> forall stat: nat :: 14 <= stat <= 17 ==> StatValue(values, r, c, stat, i) == None)
      && (i >= c.valueCnt ==> forall addr: nat :: HistValue(values, r, c, i, addr) == None)
  {
  }
}
