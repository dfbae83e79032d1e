// Shifts, masks and fixed-width fields of unbounded natural numbers. Everything is defined
// by doubling and halving, so that register arithmetic stays linear.
module Numbers {

  type byte = b: int | 0 <= b < 256

  // n * d as repeated addition.
  function Times(n: nat, d: nat): nat {
    if n == 0 then 0 else Times(n - 1, d) + d
  }

  // ceil(n / w)
  function CeilDiv(n: nat, w: nat): nat
    requires w > 0
  {
    if n == 0 then 0 else if n <= w then 1 else 1 + CeilDiv(n - w, w)
  }

  function Pow2(n: nat): (p: nat)
    ensures p > 0
  {
    if n == 0 then 1 else 2 * Pow2(n - 1)
  }

  // x << k
  function Shl(x: nat, k: nat): nat {
    if k == 0 then x else 2 * Shl(x, k - 1)
  }

  // x >> k
  function Shr(x: nat, k: nat): nat {
    if k == 0 then x else Shr(x / 2, k - 1)
  }

  // x & int('1' * k, 2)
  function Low(x: nat, k: nat): nat {
    if k == 0 then 0 else x % 2 + 2 * Low(x / 2, k - 1)
  }

  // x & y
  function And(x: nat, y: nat): nat {
    if x == 0 || y == 0 then 0
    else (if x % 2 == 1 && y % 2 == 1 then 1 else 0) + 2 * And(x / 2, y / 2)
  }

  // x | y
  function Or(x: nat, y: nat): nat {
    if x == 0 then y
    else if y == 0 then x
    else (if x % 2 == 1 || y % 2 == 1 then 1 else 0) + 2 * Or(x / 2, y / 2)
  }

  predicate Bit(x: nat, i: nat) {
    if i == 0 then x % 2 == 1 else Bit(x / 2, i - 1)
  }

  // Index of the lowest set bit: bin(x)[2:][::-1].index('1').
  function LowestSet(x: nat): nat
    requires x > 0
  {
    if x % 2 == 1 then 0 else 1 + LowestSet(x / 2)
  }

  // Fields of w bits side by side, the first one lowest.
  function Pack(w: nat, ds: seq<nat>): nat {
    if ds == [] then 0 else ds[0] + Shl(Pack(w, ds[1..]), w)
  }

  // The n lowest fields of w bits.
  function Unpack(w: nat, x: nat, n: nat): (ds: seq<nat>)
    ensures |ds| == n
    decreases n
  {
    if n == 0 then [] else [Low(x, w)] + Unpack(w, Shr(x, w), n - 1)
  }

  ghost predicate Fits(w: nat, ds: seq<nat>) {
    forall i :: 0 <= i < |ds| ==> ds[i] < Pow2(w)
  }

  function Repeat<T>(x: T, n: nat): (r: seq<T>)
    ensures |r| == n && forall i :: 0 <= i < n ==> r[i] == x
  {
    seq(n, i => x)
  }

  function Ones(n: nat): (ds: seq<nat>)
    ensures |ds| == n && forall i :: 0 <= i < n ==> ds[i] == 1
  {
    Repeat<nat>(1, n)
  }

  // ---------------------------------------------------------------- multiples

  lemma {:induction false} TimesAdd(m: nat, n: nat, d: nat)
    ensures Times(m + n, d) == Times(m, d) + Times(n, d)
  {
    if n > 0 { TimesAdd(m, n - 1, d); }
  }

  lemma TimesMonotone(m: nat, n: nat, d: nat)
    requires m <= n
    ensures Times(m, d) <= Times(n, d)
  {
    TimesAdd(m, n - m, d);
  }

  lemma {:induction false} TimesIs(n: nat, d: nat)
    ensures Times(n, d) == n * d
  {
    if n > 0 { TimesIs(n - 1, d); }
  }


  // ---------------------------------------------------------------- shifts and masks

  lemma {:induction false} Pow2Add(a: nat, b: nat)
    ensures Pow2(a + b) == Shl(Pow2(a), b)
  {
    if b > 0 { Pow2Add(a, b - 1); }
  }

  lemma {:induction false} Pow2Monotone(a: nat, b: nat)
    requires a <= b
    ensures Pow2(a) <= Pow2(b)
    decreases b
  {
    if a < b { Pow2Monotone(a, b - 1); }
  }

  lemma {:induction false} ShlAdd(x: nat, y: nat, k: nat)
    ensures Shl(x + y, k) == Shl(x, k) + Shl(y, k)
  {
    if k > 0 { ShlAdd(x, y, k - 1); }
  }

  lemma {:induction false} ShlShl(x: nat, a: nat, b: nat)
    ensures Shl(Shl(x, a), b) == Shl(x, a + b)
  {
    if b > 0 { ShlShl(x, a, b - 1); }
  }

  lemma {:induction false} ShrShr(x: nat, a: nat, b: nat)
    ensures Shr(Shr(x, a), b) == Shr(x, a + b)
    decreases a
  {
    if a > 0 { ShrShr(x / 2, a - 1, b); }
  }

  // A field is recovered from the number it was put into.
  lemma {:induction false} FieldCut(d: nat, x: nat, w: nat)
    requires d < Pow2(w)
    ensures Shr(d + Shl(x, w), w) == x && Low(d + Shl(x, w), w) == d
    decreases w
  {
    if w > 0 {
      FieldCut(d / 2, x, w - 1);
      assert (d + Shl(x, w)) / 2 == d / 2 + Shl(x, w - 1);
    }
  }

  lemma {:induction false} Split(x: nat, k: nat)
    ensures x == Low(x, k) + Shl(Shr(x, k), k) && Low(x, k) < Pow2(k)
    decreases k
  {
    if k > 0 { Split(x / 2, k - 1); }
  }

  lemma {:induction false} LowSmall(x: nat, k: nat)
    requires x < Pow2(k)
    ensures Low(x, k) == x && Shr(x, k) == 0
    decreases k
  {
    if k > 0 { LowSmall(x / 2, k - 1); }
  }


  lemma {:induction false} ShlIsZero(k: nat)
    ensures Shl(0, k) == 0
  {
    if k > 0 { ShlIsZero(k - 1); }
  }

  lemma AndHalf(x: nat, y: nat)
    ensures And(x, y) == (if x % 2 == 1 && y % 2 == 1 then 1 else 0) + 2 * And(x / 2, y / 2)
  {
  }

  lemma {:induction false} AndOnes(x: nat, k: nat)
    ensures And(x, Pack(1, Ones(k))) == Low(x, k)
    decreases k
  {
    if k > 0 {
      assert Ones(k)[1..] == Ones(k - 1);
      var o := Pack(1, Ones(k - 1));
      assert Shl(o, 1) == 2 * Shl(o, 0);
      assert Pack(1, Ones(k)) == 1 + 2 * o;
      AndHalf(x, 1 + 2 * o);
      AndOnes(x / 2, k - 1);
    }
  }

  // Bits written into an empty low field.
  lemma {:induction false} OrShl(x: nat, k: nat, y: nat)
    requires y < Pow2(k)
    ensures Or(Shl(x, k), y) == Shl(x, k) + y
    decreases k
  {
    if k > 0 { OrShl(x, k - 1, y / 2); }
  }

  // ---------------------------------------------------------------- fields

  lemma {:induction false} PackAppend(w: nat, xs: seq<nat>, ys: seq<nat>)
    ensures Pack(w, xs + ys) == Pack(w, xs) + Shl(Pack(w, ys), Times(|xs|, w))
  {
    if xs == [] {
      assert xs + ys == ys;
    } else {
      assert (xs + ys)[1..] == xs[1..] + ys;
      PackAppend(w, xs[1..], ys);
      var t := Times(|xs| - 1, w);
      ShlAdd(Pack(w, xs[1..]), Shl(Pack(w, ys), t), w);
      ShlShl(Pack(w, ys), t, w);
    }
  }

  lemma {:induction false} PackBound(w: nat, ds: seq<nat>)
    requires Fits(w, ds)
    ensures Pack(w, ds) < Pow2(Times(|ds|, w))
  {
    if ds != [] {
      PackBound(w, ds[1..]);
      var x, t := Pack(w, ds[1..]), Times(|ds| - 1, w);
      Pow2Add(t, w);
      ShlAtMost(x + 1, Pow2(t), w);
      ShlAdd(x, 1, w);
      Pow2Add(0, w);
    }
  }

  lemma {:induction false} ShlAtMost(x: nat, y: nat, k: nat)
    requires x <= y
    ensures Shl(x, k) <= Shl(y, k)
  {
    if k > 0 { ShlAtMost(x, y, k - 1); }
  }

  // Shifting by k fields drops them; the next field is then the low one.
  lemma {:induction false} PackShr(w: nat, ds: seq<nat>, k: nat)
    requires Fits(w, ds) && k <= |ds|
    ensures Shr(Pack(w, ds), Times(k, w)) == Pack(w, ds[k..])
    decreases k
  {
    if k > 0 {
      PackShr(w, ds[1..], k - 1);
      FieldCut(ds[0], Pack(w, ds[1..]), w);
      ShrShr(Pack(w, ds), w, Times(k - 1, w));
      assert ds[1..][k - 1..] == ds[k..];
    } else {
      assert ds[0..] == ds;
    }
  }

  lemma PackLow(w: nat, ds: seq<nat>, k: nat)
    requires Fits(w, ds) && k <= |ds|
    ensures Low(Pack(w, ds), Times(k, w)) == Pack(w, ds[..k])
  {
    hide Pack, Low, Shr;
    assert ds == ds[..k] + ds[k..];
    PackAppend(w, ds[..k], ds[k..]);
    PackBound(w, ds[..k]);
    FieldCut(Pack(w, ds[..k]), Pack(w, ds[k..]), Times(k, w));
  }

  lemma PackAt(w: nat, ds: seq<nat>, k: nat)
    requires Fits(w, ds) && k < |ds|
    ensures Low(Shr(Pack(w, ds), Times(k, w)), w) == ds[k]
  {
    PackShr(w, ds, k);
    FieldCut(ds[k], Pack(w, ds[k..][1..]), w);
  }

  // Cutting a number that fits into n fields loses nothing.
  lemma {:induction false} PackUnpack(w: nat, x: nat, n: nat)
    requires x < Pow2(Times(n, w))
    ensures Pack(w, Unpack(w, x, n)) == x && Fits(w, Unpack(w, x, n))
    decreases n
  {
    if n > 0 {
      Split(x, w);
      Pow2Add(Times(n - 1, w), w);
      if Shr(x, w) >= Pow2(Times(n - 1, w)) {
        ShlAtMost(Pow2(Times(n - 1, w)), Shr(x, w), w);
        assert false;
      }
      PackUnpack(w, Shr(x, w), n - 1);
    }
  }

  lemma {:induction false} PackZeros(w: nat, n: nat)
    ensures Pack(w, Repeat<nat>(0, n)) == 0
  {
    if n > 0 {
      assert Repeat<nat>(0, n)[1..] == Repeat<nat>(0, n - 1);
      PackZeros(w, n - 1);
      ShlIsZero(w);
    } else {
      ShlIsZero(w);
    }
  }

  // ---------------------------------------------------------------- bit vectors

  lemma BitsFit(ds: seq<nat>)
    requires forall i :: 0 <= i < |ds| ==> ds[i] <= 1
    ensures Fits(1, ds)
  {
    assert Pow2(1) == 2 * Pow2(0);
  }

  lemma PackBit(ds: seq<nat>)
    requires ds != []
    ensures Pack(1, ds) == ds[0] + 2 * Pack(1, ds[1..])
  {
    assert Shl(Pack(1, ds[1..]), 1) == 2 * Shl(Pack(1, ds[1..]), 0);
  }

  function Both(xs: seq<nat>, ys: seq<nat>): (r: seq<nat>)
    requires |xs| == |ys|
    ensures |r| == |xs|
    ensures forall i :: 0 <= i < |xs| ==> r[i] == if xs[i] == 1 && ys[i] == 1 then 1 else 0
  {
    seq<nat>(|xs|, i requires 0 <= i < |xs| => if xs[i] == 1 && ys[i] == 1 then 1 else 0)
  }

  ghost predicate Bits(ds: seq<nat>) {
    forall i :: 0 <= i < |ds| ==> ds[i] <= 1
  }

  lemma Halves(d: nat, x: nat)
    requires d <= 1
    ensures (d + 2 * x) % 2 == d && (d + 2 * x) / 2 == x
  {
  }

  lemma {:induction false} AndBits(xs: seq<nat>, ys: seq<nat>)
    requires |xs| == |ys| && Bits(xs) && Bits(ys)
    ensures And(Pack(1, xs), Pack(1, ys)) == Pack(1, Both(xs, ys))
  {
    if xs != [] {
      hide And, Pack;
      AndBits(xs[1..], ys[1..]);
      assert Both(xs, ys)[1..] == Both(xs[1..], ys[1..]);
      PackBit(xs);
      PackBit(ys);
      PackBit(Both(xs, ys));
      Halves(xs[0], Pack(1, xs[1..]));
      Halves(ys[0], Pack(1, ys[1..]));
      AndHalf(Pack(1, xs), Pack(1, ys));
    }
  }

  lemma {:induction false} AndAtMost(x: nat, y: nat)
    ensures And(x, y) <= x
  {
    if x != 0 && y != 0 { AndAtMost(x / 2, y / 2); }
  }

  // Masking away a set bit makes the value smaller.
  lemma {:induction false} AndDrops(x: nat, y: nat, i: nat)
    requires Bit(x, i) && !Bit(y, i)
    ensures And(x, y) < x
    decreases i
  {
    BitPositive(x, i);
    AndHalf(x, y);
    if i == 0 {
      AndAtMost(x / 2, y / 2);
    } else {
      AndDrops(x / 2, y / 2, i - 1);
    }
  }

  lemma {:induction false} BitPositive(x: nat, i: nat)
    requires Bit(x, i)
    ensures x > 0
    decreases i
  {
    if i > 0 { BitPositive(x / 2, i - 1); }
  }

  lemma {:induction false} BitLowest(x: nat)
    requires x > 0
    ensures Bit(x, LowestSet(x))
  {
    if x % 2 == 0 { BitLowest(x / 2); }
  }

  lemma {:induction false} BitPack(ds: seq<nat>, i: nat)
    requires Bits(ds) && i < |ds|
    ensures Bit(Pack(1, ds), i) <==> ds[i] == 1
    decreases i
  {
    PackBit(ds);
    if i > 0 { BitPack(ds[1..], i - 1); }
  }

  // A set bit of the k low bits is a set bit of the whole, below k.
  lemma {:induction false} BitLow(x: nat, k: nat, i: nat)
    requires Bit(Low(x, k), i)
    ensures i < k && Bit(x, i)
    decreases k
  {
    if k == 0 {
      BitPositive(0, i);
    } else if i > 0 {
      BitLow(x / 2, k - 1, i - 1);
    }
  }

  lemma {:induction false} BitLowIs(x: nat, k: nat, i: nat)
    requires i < k
    ensures Bit(Low(x, k), i) <==> Bit(x, i)
    decreases k
  {
    if i > 0 { BitLowIs(x / 2, k - 1, i - 1); }
  }

  lemma {:induction false} BitPow2(n: nat, i: nat)
    ensures Bit(Pow2(n), i) <==> i == n
    decreases i
  {
    if i > 0 {
      if n > 0 { BitPow2(n - 1, i - 1); } else { NoBit(i - 1); }
    }
  }

  lemma {:induction false} NoBit(i: nat)
    ensures !Bit(0, i)
  {
    if i > 0 { NoBit(i - 1); }
  }

  lemma {:induction false} BitShr(x: nat, k: nat, i: nat)
    ensures Bit(Shr(x, k), i) <==> Bit(x, k + i)
    decreases k
  {
    if k > 0 { BitShr(x / 2, k - 1, i); }
  }

  // The lowest set bit of a bit vector is its first 1.
  lemma {:induction false} LowestPack(ds: seq<nat>, i: nat)
    requires Bits(ds) && i < |ds| && ds[i] == 1
    requires forall j :: 0 <= j < i ==> ds[j] == 0
    ensures Pack(1, ds) > 0 && LowestSet(Pack(1, ds)) == i
    decreases i
  {
    PackBit(ds);
    if i > 0 { LowestPack(ds[1..], i - 1); }
  }

  lemma {:induction false} NoBitsPack(ds: seq<nat>)
    requires forall j :: 0 <= j < |ds| ==> ds[j] == 0
    ensures Pack(1, ds) == 0
  {
    if ds != [] {
      PackBit(ds);
      NoBitsPack(ds[1..]);
    }
  }

  // ---------------------------------------------------------------- counting bits

  function PopCount(x: nat): nat {
    if x == 0 then 0 else x % 2 + PopCount(x / 2)
  }

  lemma {:induction false} BitAnd(x: nat, y: nat, i: nat)
    ensures Bit(And(x, y), i) <==> Bit(x, i) && Bit(y, i)
    decreases i
  {
    AndHalf(x, y);
    if i > 0 { BitAnd(x / 2, y / 2, i - 1); }
  }

  lemma {:induction false} UpsAnd(x: nat, y: nat)
    ensures PopCount(And(x, y)) <= PopCount(x)
  {
    AndHalf(x, y);
    if x != 0 { UpsAnd(x / 2, y / 2); }
  }

  lemma {:induction false} UpsAndDrops(x: nat, y: nat, i: nat)
    requires Bit(x, i) && !Bit(y, i)
    ensures PopCount(And(x, y)) < PopCount(x)
    decreases i
  {
    BitPositive(x, i);
    AndHalf(x, y);
    if i == 0 {
      UpsAnd(x / 2, y / 2);
    } else {
      UpsAndDrops(x / 2, y / 2, i - 1);
    }
  }

  lemma {:induction false} UpsPositive(x: nat)
    requires x > 0
    ensures PopCount(x) > 0
  {
    if x % 2 == 0 { UpsPositive(x / 2); }
  }

  lemma {:induction false} ShrAnd(x: nat, y: nat, k: nat)
    ensures Shr(And(x, y), k) == And(Shr(x, k), Shr(y, k))
    decreases k
  {
    if k > 0 {
      AndHalf(x, y);
      ShrAnd(x / 2, y / 2, k - 1);
    }
  }

  lemma {:induction false} LowAnd(x: nat, y: nat, k: nat)
    ensures Low(And(x, y), k) == And(Low(x, k), y)
    decreases k
  {
    if k > 0 {
      AndHalf(x, y);
      Halves(x % 2, Low(x / 2, k - 1));
      AndHalf(Low(x, k), y);
      LowAnd(x / 2, y / 2, k - 1);
      Halves(if x % 2 == 1 && y % 2 == 1 then 1 else 0, And(x / 2, y / 2));
      hide And;
    }
  }

  lemma {:induction false} UpsPack(ds: seq<nat>, n: nat)
    requires Bits(ds) && n == Sum(ds)
    ensures PopCount(Pack(1, ds)) == n
  {
    if ds != [] {
      PackBit(ds);
      UpsPack(ds[1..], n - ds[0]);
    }
  }

  function Sum(ds: seq<nat>): nat {
    if ds == [] then 0 else ds[0] + Sum(ds[1..])
  }

  lemma {:induction false} SumLast(ds: seq<nat>)
    requires ds != []
    ensures Sum(ds) == Sum(ds[..|ds| - 1]) + ds[|ds| - 1]
  {
    if |ds| > 1 {
      SumLast(ds[1..]);
      assert ds[1..][..|ds| - 2] == ds[..|ds| - 1][1..];
    }
  }

  lemma {:induction false} CeilDivCovers(n: nat, w: nat)
    requires w > 0
    ensures n <= Times(CeilDiv(n, w), w)
  {
    if n > w { CeilDivCovers(n - w, w); } else if n > 0 { TimesOneLess(w); }
  }

  lemma TimesOneLess(w: nat)
    ensures Times(1, w) == w
  {
    assert Times(0, w) == 0;
  }

  // Field i of n, cut directly.
  lemma {:induction false} UnpackAt(w: nat, x: nat, n: nat, i: nat)
    requires i < n
    ensures Unpack(w, x, n)[i] == Low(Shr(x, Times(i, w)), w)
    decreases i
  {
    if i > 0 {
      UnpackAt(w, Shr(x, w), n - 1, i - 1);
      ShrShr(x, w, Times(i - 1, w));
    }
  }

  // ---------------------------------------------------------------- in ordinary arithmetic

  lemma DivUnique(x: nat, d: nat, q: nat, r: nat)
    requires r < d && x == q * d + r
    ensures x / d == q && x % d == r
  {
    var k := x / d - q;
    assert x == x / d * d + x % d;
    assert k * d == r - x % d;
    MultipleApart(k, d);
  }

  lemma MultipleApart(k: int, d: int)
    requires d > 0
    ensures k > 0 ==> k * d >= d
    ensures k < 0 ==> k * d <= -d
  {
  }

  lemma HalfFirst(x: nat, d: nat)
    requires d > 0
    ensures x / 2 / d == x / (2 * d) && x % (2 * d) == x % 2 + 2 * (x / 2 % d)
  {
    var q, r := x / 2 / d, x / 2 % d;
    assert x / 2 == q * d + r;
    assert 2 * (q * d) == q * (2 * d);
    DivUnique(x, 2 * d, q, x % 2 + 2 * r);
  }

  // Shifting and masking divide by a power of two.
  lemma {:induction false} ShrIs(x: nat, k: nat)
    ensures Shr(x, k) == x / Pow2(k)
    decreases k
  {
    if k > 0 {
      ShrIs(x / 2, k - 1);
      HalfFirst(x, Pow2(k - 1));
    }
  }

  lemma {:induction false} LowIs(x: nat, k: nat)
    ensures Low(x, k) == x % Pow2(k)
    decreases k
  {
    if k > 0 {
      LowIs(x / 2, k - 1);
      HalfFirst(x, Pow2(k - 1));
    }
  }

  // Field r of w bits, and bit i, of a register.
  lemma FieldIs(x: nat, w: nat, r: nat)
    ensures Low(Shr(x, Times(r, w)), w) == x / Pow2(r * w) % Pow2(w)
  {
    TimesIs(r, w);
    ShrIs(x, r * w);
    LowIs(Shr(x, r * w), w);
  }

  lemma {:induction false} BitIs(x: nat, i: nat)
    ensures Bit(x, i) <==> x / Pow2(i) % 2 == 1
    decreases i
  {
    if i > 0 {
      BitIs(x / 2, i - 1);
      HalfFirst(x, Pow2(i - 1));
    }
  }

  lemma {:induction false} BitOr(x: nat, y: nat, i: nat)
    ensures Bit(Or(x, y), i) <==> Bit(x, i) || Bit(y, i)
    decreases i
  {
    OrHalf(x, y);
    if i > 0 { BitOr(x / 2, y / 2, i - 1); }
  }

  lemma OrHalf(x: nat, y: nat)
    ensures Or(x, y) % 2 == (if x % 2 == 1 || y % 2 == 1 then 1 else 0) && Or(x, y) / 2 == Or(x / 2, y / 2)
  {
  }

  // The least number of parts of size w that hold n.
  lemma {:induction false} CeilDivIs(n: nat, w: nat)
    requires w > 0
    ensures CeilDiv(n, w) * w >= n && (n > 0 ==> (CeilDiv(n, w) - 1) * w < n) && (n == 0 ==> CeilDiv(n, w) == 0)
  {
    if n > w { CeilDivIs(n - w, w); }
  }
}
