// Cutting bits out of a number by way of its binary text.
module SliceCodec {
  import opened Numbers
  import opened Options

  // bin(n)[2:]
  function Bin(n: nat): (s: string)
    ensures s != "" && forall i :: 0 <= i < |s| ==> s[i] == '0' || s[i] == '1'
  {
    if n < 2 then (if n == 0 then "0" else "1") else Bin(n / 2) + (if n % 2 == 0 then "0" else "1")
  }

  // int(s, 2) of a text of binary digits.
  function FromBin(s: string): nat {
    if s == "" then 0 else 2 * FromBin(s[..|s| - 1]) + if s[|s| - 1] == '1' then 1 else 0
  }

  // A Python slice bound: negative numbers count from the end, and both ends are clamped.
  function Bound(i: int, length: nat): (b: nat)
    ensures b <= length
  {
    if i < 0 then (if i + length < 0 then 0 else i + length) else if i > length then length else i
  }

  // s[start:end], where end may be None.
  function PySlice(s: string, start: int, end: Option<int>): string {
    var a := Bound(start, |s|);
    var b := if end.None? then |s| else Bound(end.value, |s|);
    if a < b then s[a..b] else ""
  }

  // get_bits
  function GetBits(val: nat, width: nat, pos: nat): nat {
    var binary := Bin(val);
    var end := 0 - pos;
    var start := end - width;
    var cut := PySlice(binary, start, if end == 0 then None else Some(end));
    if cut == "" then 0 else FromBin(cut)
  }

  lemma {:induction false} BinBack(n: nat)
    ensures FromBin(Bin(n)) == n
  {
    if n >= 2 {
      BinBack(n / 2);
      assert Bin(n)[..|Bin(n)| - 1] == Bin(n / 2);
    } else {
      assert Bin(n)[..0] == "";
    }
  }

  lemma {:induction false} FromBinBound(s: string)
    ensures FromBin(s) < Pow2(|s|)
  {
    if s != "" {
      FromBinBound(s[..|s| - 1]);
    }
  }

  // Dropping the last k digits shifts down.
  lemma {:induction false} DropDigits(s: string, k: nat)
    requires k <= |s|
    ensures FromBin(s[..|s| - k]) == Shr(FromBin(s), k)
    decreases k
  {
    if k == 0 {
      assert s[..|s|] == s;
    } else {
      var t := s[..|s| - 1];
      DropDigits(t, k - 1);
      assert t[..|t| - (k - 1)] == s[..|s| - k];
      assert FromBin(s) / 2 == FromBin(t);
    }
  }

  // Keeping the last k digits masks.
  lemma {:induction false} KeepDigits(s: string, k: nat)
    requires k <= |s|
    ensures FromBin(s[|s| - k..]) == Low(FromBin(s), k)
    decreases k
  {
    if k > 0 {
      var t := s[..|s| - 1];
      KeepDigits(t, k - 1);
      assert s[|s| - k..][..k - 1] == t[|t| - (k - 1)..];
      assert FromBin(s) / 2 == FromBin(t) && FromBin(s) % 2 == if s[|s| - 1] == '1' then 1 else 0;
    }
  }

  // Shifting or masking beyond the digits.
  lemma BeyondDigits(s: string, k: nat)
    requires |s| <= k
    ensures Shr(FromBin(s), k) == 0 && Low(FromBin(s), k) == FromBin(s)
  {
    FromBinBound(s);
    Pow2Monotone(|s|, k);
    LowSmall(FromBin(s), k);
  }

  lemma {:induction false} LowZero(k: nat)
    ensures Low(0, k) == 0
  {
    if k > 0 { LowZero(k - 1); }
  }

  // Without the last pos digits, and of these the last width ones.
  lemma CutDigits(s: string, width: nat, pos: nat)
    requires width > 0
    ensures FromBin(PySlice(s, 0 - pos - width, if pos == 0 then None else Some(0 - pos)))
      == Low(Shr(FromBin(s), pos), width)
  {
    hide FromBin, Low, Shr;
    var cut := PySlice(s, 0 - pos - width, if pos == 0 then None else Some(0 - pos));
    if pos >= |s| {
      assert cut == "";
      BeyondDigits(s, pos);
      LowZero(width);
      FromNothing();
    } else {
      var t := s[..|s| - pos];
      DropDigits(s, pos);
      if width <= |t| {
        assert cut == t[|t| - width..];
        KeepDigits(t, width);
      } else {
        assert cut == t;
        BeyondDigits(t, width);
      }
    }
  }

  lemma FromNothing()
    ensures FromBin("") == 0
  {
  }

  // get_bits cuts the field of width bits at pos; only with width and position both zero
  // does it give back the whole number instead.
  lemma GetBitsIs(val: nat, width: nat, pos: nat)
    ensures GetBits(val, width, pos) == Low(Shr(val, pos), width) <==> width > 0 || pos > 0 || val == 0
  {
    hide FromBin, Bin;
    BinBack(val);
    FromNothing();
    if width > 0 {
      CutDigits(Bin(val), width, pos);
    } else if pos == 0 {
      WholeSlice(Bin(val));
    }
  }

  lemma WholeSlice(s: string)
    ensures PySlice(s, 0, None) == s
  {
    assert s[0..|s|] == s;
  }
}
