// The item rate limiter in its deterministic mode. Ratios are exact reals.
module ItemRate {
  import opened Numbers
  import opened Reals

  // int(x): truncation towards zero.
  function Truncate(x: real): int {
    if x >= 0.0 then x.Floor else -(-x).Floor
  }

  // Idle items still owed after so many items, at idle ratio r.
  function Deficit(r: real, total: nat, idle: nat): real {
    Mul(total as real, r) - idle as real
  }

  // 1 + r * burst / (1 - r)
  function DeficitBound(r: real, burst: nat): real
    requires 0.0 <= r < 1.0
  {
    1.0 + Mul(burst as real, r) / (1.0 - r)
  }

  // Inserting the whole idle items owed leaves a part of r of the deficit, and less than
  // one item more.
  lemma AfterIdles(r: real, total: nat, idle: nat, x: nat)
    requires 0.0 <= r < 1.0
    requires x as real <= Deficit(r, total, idle) < x as real + 1.0
    ensures Mul(Deficit(r, total, idle), r) <= Deficit(r, total + x, idle + x) <= Mul(Deficit(r, total, idle), r)
      + (1.0 - r)
  {
    hide Mul;
    var d, k := Deficit(r, total, idle), x as real;
    assert (total + x) as real == total as real + k;
    MulAdd(total as real, k, r);
    MulRest(k, r);
    MulRest(d, r);
    MulMonotone(k, d, 1.0 - r);
    MulMonotone(d, k + 1.0, 1.0 - r);
    MulAdd(k, 1.0, 1.0 - r);
    MulRest(1.0, 1.0 - r);
  }

  lemma AfterData(r: real, total: nat, idle: nat, items: nat, burst: nat)
    requires 0.0 <= r < 1.0 && items <= burst
    ensures Deficit(r, total, idle) <= Deficit(r, total + items, idle) <= Deficit(r, total, idle)
      + Mul(burst as real, r)
  {
    hide Mul;
    assert (total + items) as real == total as real + items as real;
    MulAdd(total as real, items as real, r);
    MulPositive(items as real, r);
    MulMonotone(items as real, burst as real, r);
  }

  // The bound reproduces itself over one round.
  lemma BoundHolds(r: real, burst: nat, d: real)
    requires 0.0 <= r < 1.0 && d <= DeficitBound(r, burst)
    ensures Mul(d, r) + (1.0 - r) + Mul(burst as real, r) <= DeficitBound(r, burst)
    ensures DeficitBound(r, burst) >= 1.0
  {
    hide Mul;
    var s, k := 1.0 - r, Mul(burst as real, r);
    var b := DeficitBound(r, burst);
    MulPositive(burst as real, r);
    MulQuotient(k, s);
    MulAdd(1.0, k / s, s);
    MulRest(1.0, s);
    MulRest(b, r);
    MulMonotone(d, b, r);
  }

  class ItemRateLimiter {
    const idleRateRatio: real
    var idleTransactions: nat
    var totalTransactions: nat

    function Owed(): real
      reads this
    {
      Deficit(idleRateRatio, totalTransactions, idleTransactions)
    }

    // A whole percentage of throughput, at least one.
    constructor (ratePercentage: nat)
      requires 0 < ratePercentage <= 100
      ensures idleRateRatio == 1.0 - ratePercentage as real / 100.0 && 0.0 <= idleRateRatio < 1.0
      ensures idleTransactions == 0 && totalTransactions == 0 && Owed() == 0.0
    {
      MulRest(0.0, 1.0 - ratePercentage as real / 100.0);
      idleRateRatio := 1.0 - ratePercentage as real / 100.0;
      idleTransactions, totalTransactions := 0, 0;
    }

    // get without randomness.
    method Get() returns (items: nat)
      ensures var owed := totalTransactions as real * idleRateRatio - idleTransactions as real;
        if owed >= 0.0 then items as real <= owed < items as real + 1.0 else items == 0
    {
      var x := Truncate(Mul(totalTransactions as real, idleRateRatio) - idleTransactions as real);
      items := if x > 0 then x else 0;
    }

    method Put(idle: bool, items: nat)
      modifies this
      ensures totalTransactions == old(totalTransactions) + items
      ensures idleTransactions == old(idleTransactions) + if idle then items else 0
    {
      if idle {
        idleTransactions := idleTransactions + items;
      }
      totalTransactions := totalTransactions + items;
    }

    // A get whose idles are all inserted, then a burst of data.
    method Round(items: nat, ghost burst: nat)
      requires 0.0 <= idleRateRatio < 1.0 && items <= burst
      requires 0.0 <= Owed() <= DeficitBound(idleRateRatio, burst)
      modifies this
      ensures 0.0 <= Owed() <= DeficitBound(idleRateRatio, burst)
      ensures totalTransactions - idleTransactions == old(totalTransactions - idleTransactions) + items
      ensures old(idleTransactions) <= idleTransactions
      ensures var idles := idleTransactions - old(idleTransactions);
        idles as real <= old(Owed()) < idles as real + 1.0
    {
      hide Deficit, DeficitBound, Mul;
      ghost var r, d := idleRateRatio, Owed();
      BoundIs(r, totalTransactions, idleTransactions, burst);
      var x := Get();
      AfterIdles(r, totalTransactions, idleTransactions, x);
      AfterData(r, totalTransactions + x, idleTransactions + x, items, burst);
      BoundHolds(r, burst, d);
      MulPositive(d, r);
      Put(true, x);
      Put(false, items);
    }

    // Over any run of rounds with bursts of at most `burst` data items, what is owed at each
    // get stays within the bound: the idle ratio is met up to a constant.
    method Run(bursts: seq<nat>, ghost burst: nat)
      requires 0.0 <= idleRateRatio < 1.0 && Owed() == 0.0
      requires forall i :: 0 <= i < |bursts| ==> bursts[i] <= burst
      modifies this
      ensures 0.0 <= Owed() <= DeficitBound(idleRateRatio, burst)
      ensures var r, total, idle := idleRateRatio, totalTransactions as real, idleTransactions as real;
        idle <= total * r <= idle + 1.0 + Mul(burst as real, r) / (1.0 - r)
      ensures totalTransactions - idleTransactions == old(totalTransactions - idleTransactions) + Sum(bursts)
    {
      hide Deficit, DeficitBound;
      assert bursts[..0] == [];
      BoundHolds(idleRateRatio, burst, 0.0) by { BoundPositive(idleRateRatio, burst); }
      for i := 0 to |bursts|
        invariant 0.0 <= Owed() <= DeficitBound(idleRateRatio, burst)
        invariant totalTransactions - idleTransactions == old(totalTransactions - idleTransactions) + Sum(bursts[..i])
      {
        Round(bursts[i], burst);
        assert bursts[..i + 1] == bursts[..i] + [bursts[i]];
        SumLast(bursts[..i + 1]);
      }
      assert bursts[..|bursts|] == bursts;
      BoundIs(idleRateRatio, totalTransactions, idleTransactions, burst);
    }
  }

  lemma BoundIs(r: real, total: nat, idle: nat, burst: nat)
    requires 0.0 <= r < 1.0
    ensures Deficit(r, total, idle) == total as real * r - idle as real
    ensures DeficitBound(r, burst) == 1.0 + Mul(burst as real, r) / (1.0 - r)
  {
  }

  lemma BoundPositive(r: real, burst: nat)
    requires 0.0 <= r < 1.0
    ensures DeficitBound(r, burst) >= 0.0
  {
    hide Mul;
    MulPositive(burst as real, r);
    MulQuotient(Mul(burst as real, r), 1.0 - r);
  }
}
