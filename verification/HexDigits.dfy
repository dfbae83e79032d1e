// Hexadecimal digits and the numbers they write.
module HexDigits {
  import opened Numbers

  function HexDigit(n: nat): char
    requires n < 16
  {
    "0123456789abcdef"[n]
  }

  function DigitValue(c: char): int {
    if '0' <= c <= '9' then c as int - '0' as int
    else if 'a' <= c <= 'f' then c as int - 'a' as int + 10
    else if 'A' <= c <= 'F' then c as int - 'A' as int + 10
    else -1
  }

  lemma DigitBack(n: nat)
    requires n < 16
    ensures DigitValue(HexDigit(n)) == n && HexDigit(n) != '\n' && HexDigit(n) != '#'
  {
  }

  // The digits of both cases, in order, and nothing else.
  lemma DigitsAre(c: char, n: nat)
    requires n < 16
    ensures DigitValue(c) == n <==> c == "0123456789abcdef"[n] || c == "0123456789ABCDEF"[n]
    ensures DigitValue(c) < 16 && HexDigit(n) == "0123456789abcdef"[n] && UpperDigit(n) == "0123456789ABCDEF"[n]
  {
  }

  predicate AllHex(s: string) {
    forall i :: 0 <= i < |s| ==> DigitValue(s[i]) >= 0
  }

  // The number a text of hex digits writes; any other character counts as zero.
  function HexVal(s: string): nat {
    if s == "" then 0
    else 16 * HexVal(s[..|s| - 1]) + if DigitValue(s[|s| - 1]) >= 0 then DigitValue(s[|s| - 1]) else 0
  }

  lemma {:induction false} HexAppend(s: string, t: string)
    ensures HexVal(s + t) == Shl(HexVal(s), 4 * |t|) + HexVal(t)
  {
    if t == "" {
      assert s + t == s;
    } else {
      var n := |t| - 1;
      assert (s + t)[..|s| + n] == s + t[..n];
      HexAppend(s, t[..n]);
      Shl4(HexVal(s), 4 * n);
    }
  }

  lemma Shl4(x: nat, k: nat)
    ensures Shl(x, k + 4) == 16 * Shl(x, k)
  {
    assert Shl(x, k + 1) == 2 * Shl(x, k) && Shl(x, k + 2) == 2 * Shl(x, k + 1);
    assert Shl(x, k + 3) == 2 * Shl(x, k + 2) && Shl(x, k + 4) == 2 * Shl(x, k + 3);
  }

  lemma Pow4(k: nat)
    ensures Pow2(k + 4) == 16 * Pow2(k)
  {
    assert Pow2(k + 1) == 2 * Pow2(k) && Pow2(k + 2) == 2 * Pow2(k + 1);
    assert Pow2(k + 3) == 2 * Pow2(k + 2) && Pow2(k + 4) == 2 * Pow2(k + 3);
  }

  lemma {:induction false} HexBound(s: string)
    ensures HexVal(s) < Pow2(4 * |s|)
  {
    if s != "" {
      HexBound(s[..|s| - 1]);
      Pow4(4 * (|s| - 1));
    }
  }

  lemma {:induction false} HexZeros(n: nat, s: string)
    ensures HexVal(Repeat('0', n) + s) == HexVal(s)
  {
    HexAppend(Repeat('0', n), s);
    ZerosOnly(n);
    ShlIsZero(4 * |s|);
  }

  lemma {:induction false} ZerosOnly(n: nat)
    ensures HexVal(Repeat('0', n)) == 0
  {
    if n > 0 {
      assert Repeat('0', n)[..n - 1] == Repeat('0', n - 1);
      ZerosOnly(n - 1);
    }
  }

  // ---------------------------------------------------------------- fixed-width printing

  function UpperDigit(n: nat): char
    requires n < 16
  {
    "0123456789ABCDEF"[n]
  }

  // %0kX of a number that has at most k digits.
  function Digits(n: nat, k: nat): (s: string)
    ensures |s| == k
    decreases k
  {
    if k == 0 then "" else Digits(n / 16, k - 1) + [UpperDigit(n % 16)]
  }

  function Upper(s: string): (r: string)
    ensures |r| == |s|
    ensures forall i :: 0 <= i < |s| ==> r[i] == if DigitValue(s[i]) >= 0 then UpperDigit(DigitValue(s[i])) else s[i]
  {
    seq(|s|, i requires 0 <= i < |s| => if DigitValue(s[i]) >= 0 then UpperDigit(DigitValue(s[i])) else s[i])
  }

  lemma {:induction false} DigitsOfZero(k: nat)
    ensures Digits(0, k) == Repeat('0', k)
  {
    if k > 0 { DigitsOfZero(k - 1); }
  }

  lemma DigitsStep(x: nat, d: nat, k: nat)
    requires d < 16 && k > 0
    ensures Digits(16 * x + d, k) == Digits(x, k - 1) + [UpperDigit(d)]
  {
  }

  lemma UpperLast(s: string)
    requires s != "" && AllHex(s)
    ensures 0 <= DigitValue(s[|s| - 1]) < 16
    ensures Upper(s) == Upper(s[..|s| - 1]) + [UpperDigit(DigitValue(s[|s| - 1]))]
  {
  }

  // Printing the number a text writes gives the text in upper case after leading zeros.
  lemma {:induction false} DigitsBack(s: string, k: nat)
    requires AllHex(s) && |s| <= k
    ensures Digits(HexVal(s), k) == Repeat('0', k - |s|) + Upper(s)
    decreases k
  {
    hide Digits, Upper, DigitValue, UpperDigit;
    if s == "" {
      DigitsOfZero(k);
      assert Repeat('0', k) + "" == Repeat('0', k);
    } else {
      var n := |s| - 1;
      DigitsBack(s[..n], k - 1);
      UpperLast(s);
      DigitsStep(HexVal(s[..n]), DigitValue(s[n]), k);
    }
  }

  // The digits of two fields are the digits of one after those of the other.
  lemma {:induction false} DigitsTwo(hi: nat, lo: nat, j: nat, k: nat)
    requires lo < Pow2(4 * k)
    ensures Digits(lo + Shl(hi, 4 * k), j + k) == Digits(hi, j) + Digits(lo, k)
    decreases k
  {
    hide Digits, Shl, UpperDigit;
    if k > 0 {
      Pow4(4 * (k - 1));
      Shl4(hi, 4 * (k - 1));
      DigitsTwo(hi, lo / 16, j, k - 1);
      DigitsStep(lo / 16 + Shl(hi, 4 * (k - 1)), lo % 16, j + k);
      DigitsStep(lo / 16, lo % 16, k);
    } else {
      assert Shl(hi, 0) == hi by { NoShift(hi); }
      NoDigits();
    }
  }

  // Fixed-width printing writes the number: its digits read back as what fits them.
  lemma {:induction false} PrintedBack(n: nat, k: nat)
    requires n < Pow2(4 * k)
    ensures HexVal(Digits(n, k)) == n
    decreases k
  {
    hide DigitValue, UpperDigit;
    if k > 0 {
      Pow4(4 * (k - 1));
      PrintedBack(n / 16, k - 1);
      var d := UpperDigit(n % 16);
      assert DigitValue(d) == n % 16 by { UpperBack(n % 16); }
      assert Digits(n, k)[..k - 1] == Digits(n / 16, k - 1) && Digits(n, k)[k - 1] == d;
    }
  }

  lemma UpperBack(n: nat)
    requires n < 16
    ensures DigitValue(UpperDigit(n)) == n
  {
  }

  lemma NoShift(x: nat)
    ensures Shl(x, 0) == x && Pow2(0) == 1
  {
  }

  lemma NoDigits()
    ensures Digits(0, 0) == ""
  {
  }
}
