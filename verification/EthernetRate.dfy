// The Ethernet rate limiter and the driver loop that obeys it. Rates are exact reals.
module EthernetRate {
  import opened Numbers
  import opened Options
  import opened Reals

  // Start delimiter, checksum and gap, charged once a packet.
  const OVERHEAD: nat := 8 + 4 + 12

  // One call of put: items on the bus, whether they were data, and whether a packet ended.
  datatype PutCall = PutCall(items: nat, data: bool, end: bool) {
    function Charge(): nat {
      if data then items + (if end then OVERHEAD else 0) else 0
    }
  }

  // items * rate
  function Share(items: nat, rate: real): real {
    Mul(items as real, rate)
  }

  lemma ShareAdd(a: nat, b: nat, rate: real)
    ensures Share(a + b, rate) == Share(a, rate) + Share(b, rate)
  {
    hide Mul;
    assert (a + b) as real == a as real + b as real;
    MulAdd(a as real, b as real, rate);
  }

  lemma ShareMonotone(a: nat, b: nat, rate: real)
    requires a <= b && rate >= 0.0
    ensures Share(a, rate) <= Share(b, rate)
  {
    hide Mul;
    MulMonotone(a as real, b as real, rate);
  }

  lemma SharePositive(a: nat, rate: real)
    requires rate >= 0.0
    ensures Share(a, rate) >= 0.0
  {
    hide Mul;
    MulPositive(a as real, rate);
  }

  // ---------------------------------------------------------------- the rate over a run

  function NextRate(rate: real, target: real, p: PutCall): real {
    var ir := rate + p.Charge() as real - Share(p.items, target);
    if ir < 0.0 then 0.0 else ir
  }

  // The limiter's rate after the first n calls of a run.
  function RateAfter(target: real, log: seq<PutCall>, n: nat): (r: real)
    requires n <= |log|
    ensures r >= 0.0
  {
    if n == 0 then 0.0 else NextRate(RateAfter(target, log, n - 1), target, log[n - 1])
  }

  // Data and overhead charged, and bus items, in a window of calls.
  function Charged(log: seq<PutCall>): nat {
    if log == [] then 0 else Charged(log[..|log| - 1]) + log[|log| - 1].Charge()
  }

  function Items(log: seq<PutCall>): nat {
    if log == [] then 0 else Items(log[..|log| - 1]) + log[|log| - 1].items
  }

  // In every window of calls, what was charged beyond the target is at most the rate at the
  // window's end.
  lemma {:induction false} WindowBound(target: real, log: seq<PutCall>, i: nat, j: nat)
    requires i <= j <= |log|
    ensures Charged(log[i..j]) as real - Share(Items(log[i..j]), target) <= RateAfter(target, log, j)
    decreases j
  {
    if i < j {
      WindowBound(target, log, i, j - 1);
      assert log[i..j][..j - i - 1] == log[i..j - 1];
      ShareAdd(Items(log[i..j - 1]), log[j - 1].items, target);
    }
  }

  // The bound is attained: the rate is the largest excess of any window that ends there.
  lemma {:induction false} WindowAttained(target: real, log: seq<PutCall>, j: nat) returns (i: nat)
    requires j <= |log|
    ensures i <= j && RateAfter(target, log, j) == Charged(log[i..j]) as real - Share(Items(log[i..j]), target)
    decreases j
  {
    if j == 0 || RateAfter(target, log, j) == 0.0 {
      i := j;
      ShareZero(target);
    } else {
      i := WindowAttained(target, log, j - 1);
      assert log[i..j][..j - i - 1] == log[i..j - 1];
      ShareAdd(Items(log[i..j - 1]), log[j - 1].items, target);
    }
  }

  // What the calls from i to j charged beyond their share.
  function Excess(target: real, log: seq<PutCall>, i: nat, j: nat): real
    requires i <= j <= |log|
  {
    Charged(log[i..j]) as real - Share(Items(log[i..j]), target)
  }

  // After n calls some window that ends there still exceeds its share by that of one item.
  ghost predicate Ahead(target: real, log: seq<PutCall>, n: nat)
    requires n <= |log|
  {
    exists i :: 0 <= i < n && Excess(target, log, i, n) >= target
  }

  lemma AheadFrom(target: real, log: seq<PutCall>, n: nat)
    requires n <= |log| && RateAfter(target, log, n) >= target > 0.0
    ensures Ahead(target, log, n)
  {
    hide Charged, Items, RateAfter, Share;
    var i := WindowAttained(target, log, n);
    if i == n { NothingCharged(log[i..n], target); }
    assert Excess(target, log, i, n) >= target;
  }

  lemma ShareOne(rate: real)
    ensures Share(1, rate) == rate
  {
    MulRest(0.0, rate);
  }

  lemma NothingCharged(log: seq<PutCall>, target: real)
    requires log == []
    ensures Charged(log) as real - Share(Items(log), target) == 0.0
  {
    ShareZero(target);
  }

  // What a run charges: the items of data, and 24 for each packet that ends.
  lemma {:induction false} ChargedIs(log: seq<PutCall>)
    ensures Charged(log) == DataItems(log) + 24 * PacketEnds(log)
  {
    if log != [] { ChargedIs(log[..|log| - 1]); }
  }

  function DataItems(log: seq<PutCall>): nat {
    if log == [] then 0
    else DataItems(log[..|log| - 1]) + if log[|log| - 1].data then log[|log| - 1].items else 0
  }

  function PacketEnds(log: seq<PutCall>): nat {
    if log == [] then 0
    else PacketEnds(log[..|log| - 1]) + if log[|log| - 1].data && log[|log| - 1].end then 1 else 0
  }

  lemma {:induction false} LogAppend(a: seq<PutCall>, b: seq<PutCall>)
    ensures Charged(a + b) == Charged(a) + Charged(b) && Items(a + b) == Items(a) + Items(b)
  {
    if b == [] {
      assert a + b == a;
    } else {
      assert (a + b)[..|a| + |b| - 1] == a + b[..|b| - 1];
      LogAppend(a, b[..|b| - 1]);
    }
  }

  lemma {:induction false} RateSame(target: real, a: seq<PutCall>, b: seq<PutCall>, n: nat)
    requires n <= |a|
    ensures RateAfter(target, a + b, n) == RateAfter(target, a, n)
  {
    if n > 0 { RateSame(target, a, b, n - 1); }
  }

  lemma RateNext(target: real, log: seq<PutCall>, p: PutCall)
    ensures RateAfter(target, log + [p], |log| + 1) == NextRate(RateAfter(target, log, |log|), target, p)
  {
    hide NextRate;
    RateSame(target, log, [p], |log|);
  }

  // ---------------------------------------------------------------- the idle burst

  // get: whole items that can pass before the rate falls to one item's share.
  function IdleItems(rate: real, target: real): nat
    requires target > 0.0
  {
    var x := (rate - target) / target;
    if x > 0.0 then FloorPositive(x); x.Floor else 0
  }

  lemma FloorPositive(x: real)
    requires x > 0.0
    ensures x.Floor >= 0
  {
  }

  lemma IdleItemsIs(rate: real, target: real)
    requires target > 0.0
    ensures rate < Share(IdleItems(rate, target) + 2, target)
    ensures IdleItems(rate, target) > 0 ==> Share(IdleItems(rate, target) + 1, target) <= rate
  {
    hide Mul;
    var x := (rate - target) / target;
    MulQuotient(rate - target, target);
    MulRest(1.0, target);
    var g := IdleItems(rate, target);
    if x > 0.0 {
      MulMonotone(g as real, x, target);
    }
    assert x < (g + 1) as real;
    MulStrict(x, (g + 1) as real, target);
    ShareAdd(g, 1, target);
    ShareAdd(g + 1, 1, target);
  }

  lemma IdleItemsUnique(rate: real, target: real, g: nat)
    requires target > 0.0 && rate < Share(g + 2, target) && (g > 0 ==> Share(g + 1, target) <= rate)
    ensures IdleItems(rate, target) == g
  {
    IdleItemsIs(rate, target);
    var h := IdleItems(rate, target);
    if h < g {
      ShareMonotone(h + 2, g + 1, target);
    } else if g < h {
      ShareMonotone(g + 2, h + 1, target);
    }
  }

  // One idle word, as long as the burst has at least that many idle items: the rate falls by
  // the word's share, no clamp is needed, and the rest of the burst is left.
  lemma IdleWordDrops(rate: real, target: real, width: nat)
    requires target > 0.0 && 0 < width <= IdleItems(rate, target)
    ensures NextRate(rate, target, PutCall(width, false, false)) == rate - Share(width, target) >= target
    ensures IdleItems(rate - Share(width, target), target) == IdleItems(rate, target) - width
  {
    var g := IdleItems(rate, target);
    IdleItemsIs(rate, target);
    ShareAdd(g - width + 1, width, target);
    ShareAdd(g - width + 2, width, target);
    SharePositive(g - width, target);
    ShareAdd(g - width, 1, target);
    ShareOne(target);
    IdleItemsUnique(rate - Share(width, target), target, g - width);
  }

  lemma QuotientBounds(g: nat, width: nat)
    requires width > 0
    ensures Times(g / width, width) <= g < Times(g / width + 1, width)
  {
    TimesIs(g / width, width);
  }

  // A burst of as many idle words as fit leaves less than a word of idle items.
  lemma AfterBurst(rate: real, target: real, width: nat)
    requires target > 0.0 && IdleItems(rate, target) < width
    ensures rate < Share(width + 1, target)
  {
    IdleItemsIs(rate, target);
    ShareMonotone(IdleItems(rate, target) + 2, width + 1, target);
  }

  // ---------------------------------------------------------------- growth

  lemma {:induction false} RateGrowth(target: real, log: seq<PutCall>, i: nat, j: nat)
    requires i <= j <= |log| && target >= 0.0
    ensures RateAfter(target, log, j) <= RateAfter(target, log, i) + Charged(log[i..j]) as real
    decreases j
  {
    if i < j {
      RateGrowth(target, log, i, j - 1);
      assert log[i..j][..j - i - 1] == log[i..j - 1];
      SharePositive(log[j - 1].items, target);
    } else {
      assert log[i..j] == [];
    }
  }

  lemma {:induction false} ChargedPrefix(log: seq<PutCall>, n: nat)
    requires n <= |log|
    ensures Charged(log[..n]) <= Charged(log)
  {
    if n < |log| {
      assert log[..|log| - 1][..n] == log[..n];
      ChargedPrefix(log[..|log| - 1], n);
    } else {
      assert log[..n] == log;
    }
  }

  // While `more` is put after `log`, the rate stays within what is charged.
  lemma GrowthWithin(target: real, log: seq<PutCall>, more: seq<PutCall>)
    requires target >= 0.0
    ensures forall n :: |log| <= n <= |log + more| ==>
      RateAfter(target, log + more, n) <= RateAfter(target, log, |log|) + Charged(more) as real
  {
    hide RateAfter, Charged;
    forall n | |log| <= n <= |log + more|
      ensures RateAfter(target, log + more, n) <= RateAfter(target, log, |log|) + Charged(more) as real
    {
      RateGrowth(target, log + more, |log|, n);
      RateSame(target, log, more, |log|);
      assert (log + more)[|log|..n] == more[..n - |log|];
      ChargedPrefix(more, n - |log|);
    }
  }

  // ---------------------------------------------------------------- the limiter

  lemma QuotientPositive(a: real, f: real)
    requires a > 0.0 && f > 0.0
    ensures a / f > 0.0
  {
    MulQuotient(a, f);
    if a / f == 0.0 { MulRest(0.0, f); }
  }

  class EthernetRateLimiter {
    const bitrate: real
    var targetRate: real
    var currentRate: real
    var cfgComplete: bool
    ghost var log: seq<PutCall>

    ghost predicate Valid()
      reads this
    {
      && bitrate > 0.0
      && (cfgComplete ==> targetRate > 0.0 && currentRate == RateAfter(targetRate, log, |log|))
      && (!cfgComplete ==> log == [] && currentRate == 0.0)
    }

    constructor (bitrate: real)
      requires bitrate > 0.0
      ensures Valid() && log == [] && !cfgComplete
    {
      this.bitrate := bitrate;
      targetRate, currentRate, cfgComplete, log := 0.0, 0.0, false, [];
    }

    // configure, before anything is put.
    method Configure(clkFreq: nat, bitsPerWord: nat)
      requires Valid() && log == []
      modifies this
      ensures Valid() && log == []
      ensures cfgComplete == (old(cfgComplete) || (clkFreq > 0 && bitsPerWord > 0))
      ensures clkFreq > 0 && bitsPerWord > 0 ==>
        Mul(Mul(targetRate, bitsPerWord as real), clkFreq as real / 1000000.0) == bitrate
      ensures clkFreq == 0 || bitsPerWord == 0 ==> targetRate == old(targetRate)
    {
      if clkFreq != 0 && bitsPerWord != 0 {
        cfgComplete := true;
        var targetBitrate := bitrate / (clkFreq as real / 1000000.0);
        targetRate := targetBitrate / bitsPerWord as real;
        MulQuotient(bitrate, clkFreq as real / 1000000.0);
        MulQuotient(targetBitrate, bitsPerWord as real);
        QuotientPositive(bitrate, clkFreq as real / 1000000.0);
        QuotientPositive(targetBitrate, bitsPerWord as real);
        currentRate := 0.0;
      }
    }

    method Get() returns (items: nat)
      requires Valid() && cfgComplete
      ensures items == IdleItems(currentRate, targetRate)
      ensures currentRate < Share(items + 2, targetRate) && (items > 0 ==> Share(items + 1, targetRate) <= currentRate)
    {
      IdleItemsIs(currentRate, targetRate);
      var rate := (currentRate - targetRate) / targetRate;
      items := if rate > 0.0 then rate.Floor else 0;
    }

    method Put(items: nat, data: bool, end: bool)
      requires Valid() && cfgComplete
      modifies this`currentRate, this`log
      ensures Valid() && log == old(log) + [PutCall(items, data, end)]
      ensures currentRate == NextRate(old(currentRate), targetRate, PutCall(items, data, end))
    {
      hide RateAfter, Share;
      RateNext(targetRate, log, PutCall(items, data, end));
      var ir := currentRate;
      if data {
        ir := ir + items as real;
        if end {
          ir := ir + OVERHEAD as real;
        }
      }
      ir := ir - Share(items, targetRate);
      currentRate := if ir < 0.0 then 0.0 else ir;
      log := log + [PutCall(items, data, end)];
    }
  }

  // ---------------------------------------------------------------- the driver

  // One clocked word: its bytes, padded with zeros, and the control signals.
  datatype Beat = Beat(bytes: seq<byte>, vld: nat, sop: nat, eop: nat, emp: nat)

  // The bytes of a word that belong to the packet, from its end and empty signals.
  function BeatItems(b: Beat, width: nat, segment: nat): int {
    if b.eop == 0 then width else if b.eop == 1 then segment - b.emp else width - b.emp
  }

  // What a receiver gathers from the valid words.
  function Received(beats: seq<Beat>, width: nat, segment: nat): seq<byte> {
    if beats == [] then []
    else
      var b := beats[|beats| - 1];
      var n := BeatItems(b, width, segment);
      Received(beats[..|beats| - 1], width, segment) + if b.vld != 0 && 0 <= n <= |b.bytes| then b.bytes[..n] else []
  }

  lemma ReceivedNext(beats: seq<Beat>, b: Beat, width: nat, segment: nat)
    requires b.vld != 0 && 0 <= BeatItems(b, width, segment) <= |b.bytes|
    ensures Received(beats + [b], width, segment)
      == Received(beats, width, segment) + b.bytes[..BeatItems(b, width, segment)]
  {
    assert (beats + [b])[..|beats|] == beats;
  }

  // A packet occupies whole words: one starts it, one ends it.
  ghost predicate PacketBeats(beats: seq<Beat>, width: nat) {
    && beats != []
    && (forall i :: 0 <= i < |beats| ==> |beats[i].bytes| == width && beats[i].vld == 1)
    && (forall i :: 0 <= i < |beats| ==> (beats[i].sop != 0 <==> i == 0))
    && (forall i :: 0 <= i < |beats| ==> (beats[i].eop != 0 <==> i == |beats| - 1))
  }

  // The bound on the rate when no packet is longer than `longest`.
  function RateBound(target: real, width: nat, longest: nat): real {
    Share(width + 1, target) + (longest + OVERHEAD) as real
  }

  // Every call of `log` after the first ones in `was` leaves a share of one item or more.
  ghost predicate StaysAhead(target: real, was: seq<PutCall>, log: seq<PutCall>) {
    |was| <= |log| && forall n :: |was| < n <= |log| ==> RateAfter(target, log, n) >= target
  }

  lemma AheadNext(target: real, was: seq<PutCall>, log: seq<PutCall>, p: PutCall)
    requires StaysAhead(target, was, log) && RateAfter(target, log + [p], |log| + 1) >= target
    ensures StaysAhead(target, was, log + [p])
  {
    hide RateAfter;
    RatesBefore(target, log, [p]);
  }

  // A burst, and then calls that are no idle word, or one idle word for an empty queue.
  lemma BurstAhead(target: real, was: seq<PutCall>, log: seq<PutCall>, more: seq<PutCall>, idle: PutCall, pause: bool)
    requires target > 0.0 && StaysAhead(target, was, log) && if pause then more == [idle] else idle !in more
    ensures forall n :: |was| <= n < |log + more| && (log + more)[n] == idle ==>
      Ahead(target, log + more, n + 1) || (pause && n == |log + more| - 1)
  {
    hide RateAfter, Ahead;
    if !pause { NoIdleAfter(log, more, idle); }
    forall n | |was| <= n < |log + more| && (log + more)[n] == idle && !(pause && n == |log + more| - 1)
      ensures Ahead(target, log + more, n + 1)
    {
      RateSame(target, log, more, n + 1);
      AheadFrom(target, log + more, n + 1);
    }
  }

  lemma NoIdleAfter(log: seq<PutCall>, more: seq<PutCall>, idle: PutCall)
    requires idle !in more
    ensures forall n :: |log| <= n < |log + more| ==> (log + more)[n] != idle
  {
    forall n | |log| <= n < |log + more|
      ensures (log + more)[n] != idle
    {
      assert (log + more)[n] == more[n - |log|];
    }
  }

  // The same window in a longer log.
  lemma AheadSame(target: real, log: seq<PutCall>, more: seq<PutCall>, n: nat)
    requires n <= |log| && Ahead(target, log, n)
    ensures Ahead(target, log + more, n)
  {
    hide Charged, Items, Share;
    var i :| 0 <= i < n && Excess(target, log, i, n) >= target;
    assert (log + more)[i..n] == log[i..n];
    assert Excess(target, log + more, i, n) >= target;
  }

  class AvstEthDriver {
    const busWidth: nat
    const segmentWidth: nat
    const idleGen: EthernetRateLimiter
    // Words clocked out.
    var bus: seq<Beat>

    ghost predicate Valid()
      reads this, idleGen
    {
      0 < segmentWidth <= busWidth && idleGen.Valid() && idleGen.cfgComplete
    }

    constructor (busWidth: nat, segmentWidth: nat, idleGen: EthernetRateLimiter)
      requires 0 < segmentWidth <= busWidth && idleGen.Valid() && idleGen.cfgComplete
      ensures Valid() && bus == [] && this.idleGen == idleGen && this.busWidth == busWidth
      ensures this.segmentWidth == segmentWidth
    {
      this.busWidth, this.segmentWidth, this.idleGen := busWidth, segmentWidth, idleGen;
      bus := [];
    }

    // An idle word.
    method SendIdle()
      requires Valid()
      modifies this`bus, idleGen`currentRate, idleGen`log
      ensures Valid() && bus == old(bus) + [IdleBeat()]
      ensures idleGen.log == old(idleGen.log) + [PutCall(busWidth, false, false)]
      ensures idleGen.currentRate
        == NextRate(old(idleGen.currentRate), idleGen.targetRate, PutCall(busWidth, false, false))
    {
      bus := bus + [IdleBeat()];
      idleGen.Put(busWidth, false, false);
    }

    // What an idle word reports to the limiter.
    function IdleCall(): PutCall {
      PutCall(busWidth, false, false)
    }

    // It marks nothing and carries nothing.
    function IdleBeat(): (b: Beat)
      ensures |b.bytes| == busWidth && b.vld == b.sop == b.eop == 0
    {
      Beat(Repeat(0, busWidth), 0, 0, 0, 0)
    }

    // The words of one burst: the rate falls by their share and is never clamped.
    method Burst(idleCount: nat) returns (ghost more: seq<PutCall>)
      requires Valid() && idleCount == IdleItems(idleGen.currentRate, idleGen.targetRate) / busWidth
      modifies this`bus, idleGen`currentRate, idleGen`log
      ensures Valid()
      ensures bus == old(bus) + Repeat(IdleBeat(), idleCount)
      ensures idleGen.log == old(idleGen.log) + more && Charged(more) == 0
      ensures idleGen.currentRate == old(idleGen.currentRate) - Share(Times(idleCount, busWidth), idleGen.targetRate)
      ensures IdleItems(idleGen.currentRate, idleGen.targetRate)
        == IdleItems(old(idleGen.currentRate), idleGen.targetRate) - Times(idleCount, busWidth)
      ensures IdleItems(idleGen.currentRate, idleGen.targetRate) < busWidth
      ensures StaysAhead(idleGen.targetRate, old(idleGen.log), idleGen.log)
    {
      hide Share, IdleItems, NextRate, RateAfter;
      ghost var g, rate := IdleItems(idleGen.currentRate, idleGen.targetRate), idleGen.currentRate;
      QuotientBounds(g, busWidth);
      more := [];
      assert idleGen.log == old(idleGen.log) + more;
      SharePositive(0, idleGen.targetRate);
      ShareZero(idleGen.targetRate);
      for i := 0 to idleCount
        invariant Valid() && idleGen.log == old(idleGen.log) + more && Charged(more) == 0
        invariant bus == old(bus) + Repeat(IdleBeat(), i)
        invariant Times(i, busWidth) <= g
        invariant idleGen.currentRate == rate - Share(Times(i, busWidth), idleGen.targetRate)
        invariant IdleItems(idleGen.currentRate, idleGen.targetRate) == g - Times(i, busWidth)
        invariant StaysAhead(idleGen.targetRate, old(idleGen.log), idleGen.log)
      {
        ghost var log := idleGen.log;
        TimesMonotone(i + 1, idleCount, busWidth);
        IdleWordDrops(idleGen.currentRate, idleGen.targetRate, busWidth);
        ShareAdd(Times(i, busWidth), busWidth, idleGen.targetRate);
        LogAppend(more, [PutCall(busWidth, false, false)]);
        ChargedIdle(busWidth);
        SendIdle();
        AheadNext(idleGen.targetRate, old(idleGen.log), log, PutCall(busWidth, false, false));
        assert old(bus) + Repeat(IdleBeat(), i) + [IdleBeat()] == old(bus) + Repeat(IdleBeat(), i + 1);
        assert old(idleGen.log) + more + [PutCall(busWidth, false, false)]
          == old(idleGen.log) + (more + [PutCall(busWidth, false, false)]);
        more := more + [PutCall(busWidth, false, false)];
      }
    }

    // The inner loop of _send_thread: bursts of idle words until less than a word of idle
    // items is asked for. There is at most one burst.
    method IdleLoop() returns (ghost bursts: nat, ghost more: seq<PutCall>)
      requires Valid()
      modifies this`bus, idleGen`currentRate, idleGen`log
      ensures Valid() && bursts <= 1
      ensures bus == old(bus) + Repeat(IdleBeat(), IdleItems(old(idleGen.currentRate), idleGen.targetRate) / busWidth)
      ensures idleGen.log == old(idleGen.log) + more && Charged(more) == 0
      ensures idleGen.currentRate == old(idleGen.currentRate)
        - Share(Times(IdleItems(old(idleGen.currentRate), idleGen.targetRate) / busWidth, busWidth), idleGen.targetRate)
      ensures idleGen.currentRate < Share(busWidth + 1, idleGen.targetRate)
      ensures StaysAhead(idleGen.targetRate, old(idleGen.log), idleGen.log)
    {
      hide Share, IdleItems, NextRate, RateAfter, Times;
      bursts, more := 0, [];
      NothingPut(idleGen.log);
      ghost var g := IdleItems(idleGen.currentRate, idleGen.targetRate);
      NoBurst(g, busWidth, idleGen.targetRate);
      while true
        invariant Valid() && bursts <= 1
        invariant idleGen.log == old(idleGen.log) + more && Charged(more) == 0
        invariant bus == old(bus) + if bursts == 0 then [] else Repeat(IdleBeat(), g / busWidth)
        invariant bursts == 0 ==> more == [] && idleGen.currentRate == old(idleGen.currentRate)
        invariant bursts == 1 ==> IdleItems(idleGen.currentRate, idleGen.targetRate) < busWidth
        invariant StaysAhead(idleGen.targetRate, old(idleGen.log), idleGen.log)
        invariant bursts == 1 ==>
          idleGen.currentRate == old(idleGen.currentRate) - Share(Times(g / busWidth, busWidth), idleGen.targetRate)
        decreases 1 - bursts
      {
        var items := idleGen.Get();
        var idleCount := items / busWidth;
        Small(items, busWidth);
        if idleCount == 0 {
          AfterBurst(idleGen.currentRate, idleGen.targetRate, busWidth);
          break;
        }
        more := Burst(idleCount);
        bursts := bursts + 1;
      }
    }

    // One word of a packet, put on the bus and reported to the limiter.
    method SendWord(data: seq<byte>, sop: nat) returns (rest: seq<byte>, ghost beat: Beat, ghost puts: seq<PutCall>)
      requires Valid() && data != []
      modifies this`bus, idleGen`currentRate, idleGen`log
      ensures Valid() && bus == old(bus) + [beat] && idleGen.log == old(idleGen.log) + puts
      ensures rest == if |data| <= busWidth then [] else data[busWidth..]
      ensures |beat.bytes| == busWidth && beat.vld == 1 && beat.sop == sop && (beat.eop != 0 <==> |data| <= busWidth)
      ensures var n := BeatItems(beat, busWidth, segmentWidth); 0 <= n <= busWidth && data == beat.bytes[..n] + rest
      ensures forall i :: |data| <= i < busWidth ==> beat.bytes[i] == 0
      ensures |data| > busWidth ==> beat.emp == 0
      ensures |data| <= segmentWidth ==> beat.eop == 1 && beat.emp + |data| == segmentWidth
      ensures segmentWidth < |data| <= busWidth ==> beat.eop == 2 && beat.emp + |data| == busWidth
      ensures Charged(puts) == (if |data| <= busWidth then |data| + 24 else busWidth) && Items(puts) == busWidth
      ensures IdleCall() !in puts
    {
      hide NextRate, RateAfter;
      var items, end, emptyItems, eop, emp := busWidth, false, 0, 0, 0;
      if |data| <= busWidth {
        end := true;
        items := |data|;
        emptyItems := busWidth - items;
        if items <= segmentWidth {
          eop := 1;
          emp := segmentWidth - items;
        } else {
          eop := 2;
          emp := emptyItems;
        }
      }
      rest := data[items..];
      beat := Beat(data[..items] + Repeat(0, emptyItems), 1, sop, eop, emp);
      bus := bus + [Beat(data[..items] + Repeat(0, emptyItems), 1, sop, eop, emp)];
      OnePut(PutCall(items, true, end));
      puts := [PutCall(items, true, end)];
      idleGen.Put(items, true, end);
      if emptyItems != 0 {
        OnePut(PutCall(emptyItems, false, false));
        LogAppend(puts, [PutCall(emptyItems, false, false)]);
        puts := puts + [PutCall(emptyItems, false, false)];
        idleGen.Put(emptyItems, false, false);
      }
    }

    // _driver_send of a packet: its bytes are charged once, with the overhead, and its words
    // are accounted for as whole words of the bus.
    method SendPacket(packet: seq<byte>) returns (ghost beats: seq<Beat>, ghost puts: seq<PutCall>)
      requires Valid() && packet != []
      modifies this`bus, idleGen`currentRate, idleGen`log
      ensures Valid() && bus == old(bus) + beats && idleGen.log == old(idleGen.log) + puts
      ensures PacketBeats(beats, busWidth) && Received(beats, busWidth, segmentWidth) == packet
      ensures Charged(puts) == |packet| + 24 && Items(puts) == Times(|beats|, busWidth)
      ensures IdleCall() !in puts
    {
      hide BeatItems, Charged, Items, Received, OpenBeats, PacketBeats, NextRate, RateAfter;
      var data, sop := packet, 1;
      beats, puts := [], [];
      NothingSent(busWidth, segmentWidth);
      while data != []
        invariant Valid() && bus == old(bus) + beats && idleGen.log == old(idleGen.log) + puts
        invariant beats == [] ==> data == packet && sop == 1
        invariant beats != [] ==> sop == 0
        invariant if data == [] then PacketBeats(beats, busWidth) else OpenBeats(beats, busWidth)
        invariant Received(beats, busWidth, segmentWidth) + data == packet
        invariant Charged(puts) + |data| == |packet| + (if data == [] then OVERHEAD else 0)
        invariant Items(puts) == Times(|beats|, busWidth)
        invariant IdleCall() !in puts
        decreases |data|
      {
        ghost var beat, more;
        data, beat, more := SendWord(data, sop);
        ReceivedNext(beats, beat, busWidth, segmentWidth);
        NextBeat(beats, beat, busWidth);
        LogAppend(puts, more);
        Regroup(Received(beats, busWidth, segmentWidth), beat.bytes[..BeatItems(beat, busWidth, segmentWidth)], data);
        puts := puts + more;
        beats := beats + [beat];
        sop := 0;
      }
    }

    // One turn of _send_thread: the idle loop, then a packet or, with nothing queued, an idle
    // word. The rate never leaves the larger of what it was and what the packet allows.
    method SendNext(packet: Option<seq<byte>>) returns (ghost puts: seq<PutCall>)
      requires Valid() && (packet.Some? ==> packet.value != [])
      modifies this`bus, idleGen`currentRate, idleGen`log
      ensures Valid() && idleGen.log == old(idleGen.log) + puts && (packet.None? ==> puts != [])
      ensures Received(bus, busWidth, segmentWidth)
        == Received(old(bus), busWidth, segmentWidth) + (if packet.Some? then packet.value else [])
      ensures forall n :: |old(idleGen.log)| <= n < |idleGen.log| && idleGen.log[n] == IdleCall() ==>
        Ahead(idleGen.targetRate, idleGen.log, n + 1) || (packet.None? && n == |idleGen.log| - 1)
      ensures forall n :: |old(idleGen.log)| <= n <= |idleGen.log| ==>
        RateAfter(idleGen.targetRate, idleGen.log, n) <= old(idleGen.currentRate)
        || RateAfter(idleGen.targetRate, idleGen.log, n) <= RateBound(idleGen.targetRate, busWidth,
          if packet.Some? then |packet.value| else 0)
    {
      hide NextRate, RateAfter, Share, Charged, Received, IdleItems, StaysAhead, Ahead;
      ghost var was := bus;
      ghost var pause := IdleItems(idleGen.currentRate, idleGen.targetRate) / busWidth;
      ghost var log, target := idleGen.log, idleGen.targetRate;
      ghost var bursts, idles := IdleLoop();
      GrowthWithin(target, log, idles);
      ReceivedIdle(was, IdleBeat(), pause, busWidth, segmentWidth);
      ghost var sent: seq<PutCall>;
      match packet {
        case Some(data) =>
          ghost var beats;
          beats, sent := SendPacket(data);
          ReceivedAppend(was + Repeat(IdleBeat(), pause), beats, busWidth, segmentWidth);
        case None =>
          ReceivedIdle(was + Repeat(IdleBeat(), pause), IdleBeat(), 1, busWidth, segmentWidth);
          assert Repeat(IdleBeat(), 1) == [IdleBeat()];
          ChargedIdle(busWidth);
          sent := [PutCall(busWidth, false, false)];
          SendIdle();
      }
      GrowthWithin(target, log + idles, sent);
      RatesBefore(target, log + idles, sent);
      BurstAhead(target, log, log + idles, sent, IdleCall(), packet.None?);
      puts := idles + sent;
      assert log + idles + sent == log + puts;
    }

    // _send_thread over a queue of packets and pauses: the packets reach the bus in order, at
    // every call of put the rate stays below one word's idle share beyond the longest packet
    // and its overhead, and an idle word is only sent for a pause, or while the traffic of some
    // window that ends with it still exceeds its share.
    method SendThread(queue: seq<Option<seq<byte>>>, ghost longest: nat) returns (ghost pauses: seq<nat>)
      requires Valid() && idleGen.log == []
      requires forall i :: 0 <= i < |queue| && queue[i].Some? ==> 0 < |queue[i].value| <= longest
      modifies this`bus, idleGen`currentRate, idleGen`log
      ensures Valid()
      ensures Received(bus, busWidth, segmentWidth) == Received(old(bus), busWidth, segmentWidth) + Queued(queue)
      ensures forall n :: 0 <= n <= |idleGen.log| ==>
        RateAfter(idleGen.targetRate, idleGen.log, n)
          <= Share(busWidth + 1, idleGen.targetRate) + (longest + 24) as real
      ensures |pauses| == Pauses(queue)
      ensures forall n :: 0 <= n < |idleGen.log| && idleGen.log[n] == IdleCall() && n !in pauses ==>
        Ahead(idleGen.targetRate, idleGen.log, n + 1)
    {
      hide NextRate, RateAfter, Share, Received, Ahead;
      assert queue[..0] == [];
      pauses := [];
      BoundPositive(idleGen.targetRate, busWidth, longest);
      for i := 0 to |queue|
        invariant Valid()
        invariant Received(bus, busWidth, segmentWidth)
          == Received(old(bus), busWidth, segmentWidth) + Queued(queue[..i])
        invariant forall n :: 0 <= n <= |idleGen.log| ==>
          RateAfter(idleGen.targetRate, idleGen.log, n) <= RateBound(idleGen.targetRate, busWidth, longest)
        invariant |pauses| == Pauses(queue[..i])
        invariant IdlesAhead(idleGen.targetRate, idleGen.log, IdleCall(), pauses)
      {
        ghost var log := idleGen.log;
        ghost var puts := SendNext(queue[i]);
        RatesBefore(idleGen.targetRate, log, puts);
        assert queue[..i + 1][..i] == queue[..i];
        Regroup(Received(old(bus), busWidth, segmentWidth), Queued(queue[..i]),
          if queue[i].Some? then queue[i].value else []);
        IdlesMore(idleGen.targetRate, log, puts, IdleCall(), pauses, queue[i].None?);
        if queue[i].None? { pauses := pauses + [|idleGen.log| - 1]; }
      }
      assert queue[..|queue|] == queue;
    }
  }

  // Every idle word but those for a pause is ahead of the target.
  ghost predicate IdlesAhead(target: real, log: seq<PutCall>, idle: PutCall, pauses: seq<nat>) {
    forall n :: 0 <= n < |log| && log[n] == idle && n !in pauses ==> Ahead(target, log, n + 1)
  }

  lemma IdlesMore(target: real, log: seq<PutCall>, more: seq<PutCall>, idle: PutCall, pauses: seq<nat>, pause: bool)
    requires IdlesAhead(target, log, idle, pauses) && (pause ==> log + more != [])
    requires forall n :: |log| <= n < |log + more| && (log + more)[n] == idle ==>
      Ahead(target, log + more, n + 1) || (pause && n == |log + more| - 1)
    ensures IdlesAhead(target, log + more, idle, if pause then pauses + [|log + more| - 1] else pauses)
  {
    hide Ahead;
    forall n | 0 <= n < |log + more| && (log + more)[n] == idle
      && n !in (if pause then pauses + [|log + more| - 1] else pauses)
      ensures Ahead(target, log + more, n + 1)
    {
      if n < |log| { AheadSame(target, log, more, n + 1); }
    }
  }

  function Pauses(queue: seq<Option<seq<byte>>>): nat {
    if queue == [] then 0 else Pauses(queue[..|queue| - 1]) + if queue[|queue| - 1].None? then 1 else 0
  }

  // The bytes of the packets in a queue.
  function Queued(queue: seq<Option<seq<byte>>>): seq<byte> {
    if queue == [] then []
      else Queued(queue[..|queue| - 1]) + if queue[|queue| - 1].Some? then queue[|queue| - 1].value else []
  }

  lemma {:induction false} ReceivedAppend(a: seq<Beat>, b: seq<Beat>, width: nat, segment: nat)
    ensures Received(a + b, width, segment) == Received(a, width, segment) + Received(b, width, segment)
  {
    hide BeatItems;
    if b == [] {
      assert a + b == a;
    } else {
      assert (a + b)[..|a| + |b| - 1] == a + b[..|b| - 1];
      ReceivedAppend(a, b[..|b| - 1], width, segment);
    }
  }

  // Idle words carry nothing.
  lemma {:induction false} ReceivedIdle(a: seq<Beat>, idle: Beat, n: nat, width: nat, segment: nat)
    requires idle.vld == 0
    ensures Received(a + Repeat(idle, n), width, segment) == Received(a, width, segment)
  {
    hide BeatItems;
    if n == 0 {
      assert a + Repeat(idle, 0) == a;
    } else {
      assert (a + Repeat(idle, n))[..|a| + n - 1] == a + Repeat(idle, n - 1);
      ReceivedIdle(a, idle, n - 1, width, segment);
    }
  }

  // The words of a packet that has not ended yet.
  ghost predicate OpenBeats(beats: seq<Beat>, width: nat) {
    && (forall i :: 0 <= i < |beats| ==> |beats[i].bytes| == width && beats[i].vld == 1)
    && (forall i :: 0 <= i < |beats| ==> (beats[i].sop != 0 <==> i == 0))
    && (forall i :: 0 <= i < |beats| ==> beats[i].eop == 0)
  }

  lemma NextBeat(beats: seq<Beat>, beat: Beat, width: nat)
    requires OpenBeats(beats, width) && |beat.bytes| == width && beat.vld == 1 && (beat.sop != 0 <==> beats == [])
    ensures if beat.eop != 0 then PacketBeats(beats + [beat], width) else OpenBeats(beats + [beat], width)
  {
  }

  lemma OnePut(p: PutCall)
    ensures Charged([p]) == p.Charge() && Items([p]) == p.items
  {
    assert [p][..0] == [];
  }

  lemma NothingSent(width: nat, segment: nat)
    ensures Charged([]) == 0 && Items([]) == 0 && Received([], width, segment) == [] && OpenBeats([], width)
  {
  }

  lemma Regroup(a: seq<byte>, b: seq<byte>, c: seq<byte>)
    ensures a + (b + c) == a + b + c
  {
  }

  lemma RatesBefore(target: real, log: seq<PutCall>, more: seq<PutCall>)
    ensures forall n :: 0 <= n <= |log| ==> RateAfter(target, log + more, n) == RateAfter(target, log, n)
  {
    hide RateAfter;
    forall n | 0 <= n <= |log|
      ensures RateAfter(target, log + more, n) == RateAfter(target, log, n)
    {
      RateSame(target, log, more, n);
    }
  }

  lemma BoundPositive(target: real, width: nat, longest: nat)
    requires target > 0.0
    ensures RateAfter(target, [], 0) <= RateBound(target, width, longest)
  {
    SharePositive(width + 1, target);
  }

  lemma ShareZero(rate: real)
    ensures Share(0, rate) == 0.0
  {
    MulRest(0.0, rate);
  }

  lemma ChargedIdle(width: nat)
    ensures Charged([PutCall(width, false, false)]) == 0
  {
    assert [PutCall(width, false, false)][..0] == [];
  }

  lemma NothingPut(log: seq<PutCall>)
    ensures log == log + [] && Charged([]) == 0
  {
  }

  lemma Small(g: nat, width: nat)
    requires width > 0
    ensures g / width == 0 <==> g < width
  {
  }

  lemma NoBurst(g: nat, width: nat, rate: real)
    requires width > 0
    ensures g / width == 0 ==> Share(Times(g / width, width), rate) == 0.0
  {
  }
}
