// The two hash functions of the table, on bit vectors as natural numbers.
module HashFunctions {
  import opened Numbers
  import opened Options

  // Parameters of the component the hash functions read.
  datatype HashParams = HashParams(hashKey: nat, mvbKeyWidth: nat, hashKeyWidth: nat, hashWidth: nat) {
    // Every slice of the hash key lies inside it.
    predicate SlicesFit() {
      && hashKey < Pow2(hashKeyWidth)
      && mvbKeyWidth > 0 && hashWidth > 0
      && hashKeyWidth >= hashWidth + mvbKeyWidth - 1
      && hashWidth <= mvbKeyWidth + 1
    }
  }

  // ---------------------------------------------------------------- exclusive or

  function Xor(x: nat, y: nat): nat
    decreases x + y
  {
    if x == 0 then y
    else if y == 0 then x
    else (x + y) % 2 + 2 * Xor(x / 2, y / 2)
  }

  lemma XorHalf(x: nat, y: nat)
    ensures Xor(x, y) % 2 == (x + y) % 2 && Xor(x, y) / 2 == Xor(x / 2, y / 2)
  {
    hide Xor;
    if x != 0 && y != 0 {
      XorUnfold(x, y);
      BitAndRest((x + y) % 2, Xor(x / 2, y / 2));
    } else {
      XorNothing(x, y);
      XorNothing(x / 2, y / 2);
    }
  }

  lemma XorUnfold(x: nat, y: nat)
    requires x != 0 && y != 0
    ensures Xor(x, y) == (x + y) % 2 + 2 * Xor(x / 2, y / 2)
  {
  }

  lemma XorNothing(x: nat, y: nat)
    ensures Xor(0, y) == y && Xor(x, 0) == x
  {
  }

  lemma BitAndRest(b: nat, x: nat)
    requires b < 2
    ensures (b + 2 * x) % 2 == b && (b + 2 * x) / 2 == x
  {
  }

  // Numbers are equal when their lowest bits and their halves are.
  lemma HalvesEqual(x: nat, y: nat)
    requires x % 2 == y % 2 && x / 2 == y / 2
    ensures x == y
  {
  }

  lemma {:induction false} XorCommutes(x: nat, y: nat)
    ensures Xor(x, y) == Xor(y, x)
    decreases x + y
  {
    if x != 0 && y != 0 { XorCommutes(x / 2, y / 2); }
  }

  lemma {:induction false} XorAssociates(x: nat, y: nat, z: nat)
    ensures Xor(Xor(x, y), z) == Xor(x, Xor(y, z))
    decreases x + y + z
  {
    if x != 0 && y != 0 && z != 0 {
      XorAssociates(x / 2, y / 2, z / 2);
      AssociatesFromHalves(x, y, z);
    }
  }

  lemma AssociatesFromHalves(x: nat, y: nat, z: nat)
    requires Xor(Xor(x / 2, y / 2), z / 2) == Xor(x / 2, Xor(y / 2, z / 2))
    ensures Xor(Xor(x, y), z) == Xor(x, Xor(y, z))
  {
    hide Xor;
    var l, r := Xor(Xor(x, y), z), Xor(x, Xor(y, z));
    XorHalf(x, y);
    XorHalf(Xor(x, y), z);
    XorHalf(y, z);
    XorHalf(x, Xor(y, z));
    Parities(x, y, z, Xor(x, y), Xor(y, z), l, r);
    HalvesEqual(l, r);
  }

  lemma Parities(x: nat, y: nat, z: nat, xy: nat, yz: nat, l: nat, r: nat)
    requires xy % 2 == (x + y) % 2 && yz % 2 == (y + z) % 2
    requires l % 2 == (xy + z) % 2 && r % 2 == (x + yz) % 2
    ensures l % 2 == r % 2
  {
  }

  lemma {:induction false} XorSelf(x: nat)
    ensures Xor(x, x) == 0
  {
    if x != 0 { XorSelf(x / 2); }
  }

  lemma XorIsZero(x: nat, y: nat)
    ensures Xor(x, y) == 0 <==> x == y
  {
    if x == y {
      XorSelf(x);
    } else if Xor(x, y) == 0 {
      XorAssociates(x, y, y);
      XorSelf(y);
    }
  }

  // Regrouping four terms.
  lemma XorSwap(a: nat, b: nat, c: nat, d: nat)
    ensures Xor(Xor(a, b), Xor(c, d)) == Xor(Xor(a, c), Xor(b, d))
  {
    hide Xor;
    XorAssociates(a, b, Xor(c, d));
    XorAssociates(b, c, d);
    XorCommutes(b, c);
    XorAssociates(c, b, d);
    XorAssociates(a, c, Xor(b, d));
  }

  lemma {:induction false} XorBound(x: nat, y: nat, w: nat)
    requires x < Pow2(w) && y < Pow2(w)
    ensures Xor(x, y) < Pow2(w)
    decreases w
  {
    if x != 0 && y != 0 { XorBound(x / 2, y / 2, w - 1); }
  }

  lemma {:induction false} BitXor(x: nat, y: nat, i: nat)
    ensures Bit(Xor(x, y), i) <==> Bit(x, i) != Bit(y, i)
    decreases i
  {
    hide Xor;
    XorHalf(x, y);
    if i > 0 { BitXor(x / 2, y / 2, i - 1); }
  }

  // ---------------------------------------------------------------- Toeplitz

  // The slice of the hash key that bit i of the MVB key selects.
  function KeySlice(p: HashParams, i: nat): nat
    requires p.SlicesFit() && i < p.mvbKeyWidth
  {
    Low(Shr(p.hashKey, p.hashKeyWidth - p.hashWidth - (p.mvbKeyWidth - 1 - i)), p.hashWidth)
  }

  function Term(p: HashParams, key: nat, i: nat): nat
    requires p.SlicesFit() && i < p.mvbKeyWidth
  {
    if Bit(key, i) then KeySlice(p, i) else 0
  }

  // The terms of bits mvbKeyWidth - 1 down to n.
  function Terms(p: HashParams, key: nat, n: nat): nat
    requires p.SlicesFit() && n <= p.mvbKeyWidth
    decreases p.mvbKeyWidth - n
  {
    if n == p.mvbKeyWidth then 0 else Xor(Terms(p, key, n + 1), Term(p, key, n))
  }

  // The hash as the exclusive or over all bits of the key.
  function Toeplitz(p: HashParams, key: nat): nat
    requires p.SlicesFit()
  {
    Terms(p, key, 0)
  }

  // A bit vector of the given width holds the number; otherwise making it raises an error.
  predicate FitsBits(x: int, width: nat) {
    0 <= x < Pow2(width)
  }

  // toeplitz_hash
  method ToeplitzHash(key: int, p: HashParams) returns (r: Option<nat>)
    requires p.SlicesFit()
    ensures r == if FitsBits(key, p.mvbKeyWidth) then Some(Toeplitz(p, key)) else None
  {
    if !FitsBits(key, p.mvbKeyWidth) {
      return None;
    }
    var hash := 0;
    for i := p.mvbKeyWidth downto 0
      invariant hash == Terms(p, key, i)
    {
      var keySlice := Low(Shr(p.hashKey, p.hashKeyWidth - p.hashWidth - (p.mvbKeyWidth - 1 - i)), p.hashWidth);
      var keyHash := 0;
      if Bit(key, i) {
        keyHash := keySlice;
      }
      hash := Xor(hash, keyHash);
    }
    r := Some(hash);
  }

  lemma {:induction false} TermsBound(p: HashParams, key: nat, n: nat)
    requires p.SlicesFit() && n <= p.mvbKeyWidth
    ensures Terms(p, key, n) < Pow2(p.hashWidth)
    decreases p.mvbKeyWidth - n
  {
    hide Xor, Low, Shr, Pow2, Bit;
    if n < p.mvbKeyWidth {
      TermsBound(p, key, n + 1);
      Split(Shr(p.hashKey, p.hashKeyWidth - p.hashWidth - (p.mvbKeyWidth - 1 - n)), p.hashWidth);
      XorBound(Terms(p, key, n + 1), Term(p, key, n), p.hashWidth);
    }
  }

  lemma TermXor(p: HashParams, a: nat, b: nat, i: nat)
    requires p.SlicesFit() && i < p.mvbKeyWidth
    ensures Term(p, Xor(a, b), i) == Xor(Term(p, a, i), Term(p, b, i))
  {
    hide Low, Shr, Bit, KeySlice;
    BitXor(a, b, i);
    XorSelf(KeySlice(p, i));
    assert Xor(0, KeySlice(p, i)) == KeySlice(p, i) == Xor(KeySlice(p, i), 0);
  }

  lemma {:induction false} TermsXor(p: HashParams, a: nat, b: nat, n: nat)
    requires p.SlicesFit() && n <= p.mvbKeyWidth
    ensures Terms(p, Xor(a, b), n) == Xor(Terms(p, a, n), Terms(p, b, n))
    decreases p.mvbKeyWidth - n
  {
    if n < p.mvbKeyWidth {
      hide Xor, Term;
      TermsXor(p, a, b, n + 1);
      TermXor(p, a, b, n);
      XorSwap(Terms(p, a, n + 1), Terms(p, b, n + 1), Term(p, a, n), Term(p, b, n));
    }
  }

  // The hash is linear, two keys collide exactly if their difference hashes to zero, and
  // every hash is an index of hash_width bits.
  lemma ToeplitzLinear(p: HashParams, a: nat, b: nat)
    requires p.SlicesFit()
    ensures Toeplitz(p, Xor(a, b)) == Xor(Toeplitz(p, a), Toeplitz(p, b))
    ensures Toeplitz(p, a) == Toeplitz(p, b) <==> Toeplitz(p, Xor(a, b)) == 0
    ensures Toeplitz(p, a) < Pow2(p.hashWidth)
  {
    hide Xor, Terms;
    TermsXor(p, a, b, 0);
    XorIsZero(Toeplitz(p, a), Toeplitz(p, b));
    TermsBound(p, a, 0);
  }

  // A key with bit i alone hashes to the slice for that bit.
  lemma {:induction false} TermsPow2(p: HashParams, i: nat, n: nat)
    requires p.SlicesFit() && n <= p.mvbKeyWidth && i < p.mvbKeyWidth
    ensures Terms(p, Pow2(i), n) == if n <= i then KeySlice(p, i) else 0
    decreases p.mvbKeyWidth - n
  {
    hide KeySlice, Pow2, Bit;
    if n < p.mvbKeyWidth {
      TermsPow2(p, i, n + 1);
      BitPow2(i, n);
      XorZero(KeySlice(p, i));
    }
  }

  // Bit j of the hash of key bit i is a bit of the hash key: the top key bit selects its top
  // hash_width bits, and each bit below selects them one place further down.
  lemma ToeplitzBit(p: HashParams, i: nat, j: nat)
    requires p.SlicesFit() && i < p.mvbKeyWidth && j < p.hashWidth
    ensures Bit(Toeplitz(p, Pow2(i)), j) <==>
      Bit(p.hashKey, p.hashKeyWidth - p.hashWidth - (p.mvbKeyWidth - 1 - i) + j)
  {
    hide Terms, Pow2, Low, Shr, Bit;
    TermsPow2(p, i, 0);
    var k := p.hashKeyWidth - p.hashWidth - (p.mvbKeyWidth - 1 - i);
    BitLowIs(Shr(p.hashKey, k), p.hashWidth, j);
    BitShr(p.hashKey, k, j);
  }

  // The top key bit, by division: its hash is the top of the hash key.
  lemma ToeplitzTop(p: HashParams)
    requires p.SlicesFit()
    ensures Toeplitz(p, Pow2(p.mvbKeyWidth - 1)) == p.hashKey / Pow2(p.hashKeyWidth - p.hashWidth)
  {
    hide Terms, Pow2, Low, Shr;
    var i, k := p.mvbKeyWidth - 1, p.hashKeyWidth - p.hashWidth;
    TermsPow2(p, i, 0);
    ShrFits(p.hashKey, k, p.hashWidth);
    LowSmall(Shr(p.hashKey, k), p.hashWidth);
    ShrIs(p.hashKey, k);
  }

  lemma {:induction false} ShrFits(x: nat, k: nat, w: nat)
    requires x < Pow2(k + w)
    ensures Shr(x, k) < Pow2(w)
    decreases k
  {
    if k > 0 { ShrFits(x / 2, k - 1, w); }
  }

  // These values and linearity leave no choice: a linear function that agrees on every key bit
  // agrees on every key of mvb_key_width bits.
  lemma {:induction false} LinearDetermined(p: HashParams, h: nat -> nat, key: nat, n: nat)
    requires p.SlicesFit() && n <= p.mvbKeyWidth && key < Pow2(n)
    requires h(0) == 0 && forall a: nat, b: nat :: h(Xor(a, b)) == Xor(h(a), h(b))
    requires forall i: nat :: i < p.mvbKeyWidth ==> h(Pow2(i)) == Toeplitz(p, Pow2(i))
    ensures h(key) == Toeplitz(p, key)
    decreases n
  {
    hide Xor, Toeplitz;
    if n == 0 {
      ToeplitzZero(p);
    } else if key < Pow2(n - 1) {
      LinearDetermined(p, h, key, n - 1);
    } else {
      var rest := key - Pow2(n - 1);
      LinearDetermined(p, h, rest, n - 1);
      XorTop(rest, n - 1);
      ToeplitzLinear(p, Pow2(n - 1), rest);
    }
  }

  lemma ToeplitzZero(p: HashParams)
    requires p.SlicesFit()
    ensures Toeplitz(p, 0) == 0
  {
    hide Terms, Xor;
    TermsXor(p, 0, 0, 0);
    XorSelf(0);
    XorSelf(Terms(p, 0, 0));
  }

  lemma {:induction false} XorTop(x: nat, n: nat)
    requires x < Pow2(n)
    ensures Xor(Pow2(n), x) == Pow2(n) + x
  {
    hide Xor;
    XorNothing(Pow2(n), x);
    if x > 0 {
      assert Pow2(n) == 2 * Pow2(n - 1);
      XorTop(x / 2, n - 1);
      XorUnfold(Pow2(n), x);
    }
  }

  // With hash key 0 all keys collide.
  lemma {:induction false} TermsZero(p: HashParams, key: nat, n: nat)
    requires p.SlicesFit() && n <= p.mvbKeyWidth && p.hashKey == 0
    ensures Terms(p, key, n) == 0
    decreases p.mvbKeyWidth - n
  {
    if n < p.mvbKeyWidth {
      TermsZero(p, key, n + 1);
      ZeroBits(p.hashKeyWidth - p.hashWidth - (p.mvbKeyWidth - 1 - n), p.hashWidth);
    }
  }

  lemma {:induction false} ZeroBits(i: nat, w: nat)
    ensures Low(Shr(0, i), w) == 0
  {
    if i > 0 { ZeroBits(i - 1, w); }
    Split(0, w);
  }

  // ---------------------------------------------------------------- simple xor

  // What simple_xor_hash computes for a key of at most one bit more than mvb_key_width.
  function SimpleXor(p: HashParams, key: nat): nat {
    Xor(Low(key, p.hashWidth), Low(p.hashKey, p.hashWidth))
  }

  // Two keys collide exactly if their low bits agree, whatever the hash key.
  lemma SimpleXorCollides(p: HashParams, a: nat, b: nat)
    ensures SimpleXor(p, a) == SimpleXor(p, b) <==> Low(a, p.hashWidth) == Low(b, p.hashWidth)
    ensures SimpleXor(p, a) < Pow2(p.hashWidth)
  {
    hide Xor, Low;
    var x, y, k := Low(a, p.hashWidth), Low(b, p.hashWidth), Low(p.hashKey, p.hashWidth);
    Split(a, p.hashWidth);
    Split(p.hashKey, p.hashWidth);
    XorBound(x, k, p.hashWidth);
    XorSwap(x, k, y, k);
    XorSelf(k);
    XorIsZero(SimpleXor(p, a), SimpleXor(p, b));
    XorIsZero(x, y);
    XorZero(Xor(x, y));
  }

  lemma XorZero(x: nat)
    ensures Xor(x, 0) == x
  {
  }

  // Bit by bit: the low bits of the key against those of the hash key.
  lemma SimpleXorBit(p: HashParams, key: nat, j: nat)
    requires j < p.hashWidth
    ensures Bit(SimpleXor(p, key), j) <==> Bit(key, j) != Bit(p.hashKey, j)
  {
    hide Xor, Low, Bit;
    BitXor(Low(key, p.hashWidth), Low(p.hashKey, p.hashWidth), j);
    BitLowIs(key, p.hashWidth, j);
    BitLowIs(p.hashKey, p.hashWidth, j);
  }
}
