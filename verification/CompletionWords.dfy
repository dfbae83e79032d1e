// How many bus words the completions of a PCIe read request take: the dword-by-dword
// simulation, the sum over completion boundaries, and the closed form of the hardware.
module CompletionWords {
  import opened Numbers

  // Dwords between Read Completion Boundaries for RCB = 0: 64 bytes, as in section 2.3.1.1
  // of the PCI Express Base Specification.
  const RCBS: nat := 16

  // ---------------------------------------------------------------- reference

  // Dwords of a request for n dwords at dword address a up to the next boundary.
  function First(a: nat, n: nat): (c: nat)
    ensures c <= n && (n > 0 ==> c > 0)
  {
    if n <= RCBS - a % RCBS then n else RCBS - a % RCBS
  }

  // A completion ends with the request or at the next multiple of 64 bytes, whichever is first.
  lemma FirstIs(a: nat, n: nat, k: nat)
    ensures First(a, n) == n || 4 * (a + First(a, n)) % 64 == 0
    ensures 0 < k < First(a, n) ==> 4 * (a + k) % 64 != 0
  {
  }

  // Words of w dwords: each completion is packed on its own.
  function ChunkSum(a: nat, n: nat, w: nat): nat
    requires w > 0
    decreases n
  {
    if n == 0 then 0 else CeilDiv(First(a, n), w) + ChunkSum(a + First(a, n), n - First(a, n), w)
  }

  // The bitmap of k dwords.
  function Full(k: nat): nat {
    Pow2(k) - 1
  }

  // The bitmaps of one completion of n dwords, and of all completions of a request.
  function Packed(n: nat, w: nat): seq<nat>
    requires w > 0
  {
    if n == 0 then [] else if n <= w then [Full(n)] else [Full(w)] + Packed(n - w, w)
  }

  function Bitmaps(a: nat, n: nat, w: nat): seq<nat>
    requires w > 0
    decreases n
  {
    if n == 0 then [] else Packed(First(a, n), w) + Bitmaps(a + First(a, n), n - First(a, n), w)
  }

  // The bitmap of k dwords has the k low bits set.
  lemma FullIs(k: nat, i: nat)
    ensures Bit(Full(k), i) <==> i < k
  {
    FullOnes(k);
    if i < k {
      BitPack(Ones(k), i);
    } else {
      Pow2Monotone(k, i);
      LowSmall(Full(k), k);
      BitBeyond(Full(k), i);
    }
  }

  lemma {:induction false} FullOnes(k: nat)
    ensures Pack(1, Ones(k)) == Full(k)
  {
    if k > 0 {
      FullOnes(k - 1);
      assert Ones(k)[1..] == Ones(k - 1);
      PackBit(Ones(k));
    }
  }

  lemma {:induction false} BitBeyond(x: nat, i: nat)
    requires x < Pow2(i)
    ensures !Bit(x, i)
    decreases i
  {
    if i > 0 { BitBeyond(x / 2, i - 1); }
  }

  function TotalBits(words: seq<nat>): nat {
    if words == [] then 0 else PopCount(words[0]) + TotalBits(words[1..])
  }

  lemma {:induction false} PackedCount(n: nat, w: nat)
    requires w > 0
    ensures |Packed(n, w)| == CeilDiv(n, w) && TotalBits(Packed(n, w)) == n
    decreases n
  {
    if n > w {
      PackedCount(n - w, w);
      FullBits(w);
      assert ([Full(w)] + Packed(n - w, w))[1..] == Packed(n - w, w);
    } else if n > 0 {
      FullBits(n);
      assert [Full(n)][1..] == [];
    }
  }

  lemma {:induction false} FullBits(k: nat)
    ensures PopCount(Full(k)) == k
  {
    if k > 0 {
      FullBits(k - 1);
      assert Pow2(k) == 2 * Pow2(k - 1);
    }
  }

  lemma {:induction false} TotalAppend(x: seq<nat>, y: seq<nat>)
    ensures TotalBits(x + y) == TotalBits(x) + TotalBits(y)
  {
    if x == [] {
      assert x + y == y;
    } else {
      assert (x + y)[1..] == x[1..] + y;
      TotalAppend(x[1..], y);
    }
  }

  lemma BitmapsStep(a: nat, n: nat, c: nat, w: nat)
    requires w > 0 && n > 0 && c == First(a, n)
    ensures Bitmaps(a, n, w) == Packed(c, w) + Bitmaps(a + c, n - c, w)
    ensures ChunkSum(a, n, w) == CeilDiv(c, w) + ChunkSum(a + c, n - c, w)
  {
    hide First, Packed, CeilDiv;
  }

  // The words are as many as the chunks ask for, with one bit for every dword requested.
  lemma {:induction false} BitmapsCount(a: nat, n: nat, w: nat)
    requires w > 0
    ensures |Bitmaps(a, n, w)| == ChunkSum(a, n, w) && TotalBits(Bitmaps(a, n, w)) == n
    decreases n
  {
    hide First, Packed, CeilDiv;
    if n > 0 {
      var c := First(a, n);
      BitmapsStep(a, n, c, w);
      PackedCount(c, w);
      BitmapsCount(a + c, n - c, w);
      TotalAppend(Packed(c, w), Bitmaps(a + c, n - c, w));
    }
  }

  // ---------------------------------------------------------------- one more dword

  // The last word of s holds r dwords, 1 to w of them.
  ghost predicate LastHolds(s: seq<nat>, r: nat, w: nat) {
    s != [] && 1 <= r <= w && s[|s| - 1] == Full(r)
  }

  // s with one more dword in its last word.
  function Grown(s: seq<nat>, r: nat): seq<nat>
    requires s != []
  {
    s[..|s| - 1] + [Full(r + 1)]
  }

  lemma {:induction false} PackedMore(n: nat, w: nat) returns (r: nat)
    requires w > 0 && n > 0
    ensures LastHolds(Packed(n, w), r, w)
    ensures Packed(n + 1, w) == if r < w then Grown(Packed(n, w), r) else Packed(n, w) + [Full(1)]
    decreases n
  {
    if n <= w {
      r := n;
    } else {
      r := PackedMore(n - w, w);
      var rest := Packed(n - w, w);
      assert Packed(n, w) == [Full(w)] + rest;
      assert [Full(w)] + rest[..|rest| - 1] == ([Full(w)] + rest)[..|rest|];
    }
  }

  lemma {:induction false} BitmapsMore(a: nat, n: nat, w: nat) returns (r: nat)
    requires w > 0 && n > 0
    ensures LastHolds(Bitmaps(a, n, w), r, w)
    ensures Bitmaps(a, n + 1, w) ==
      if (a + n) % RCBS != 0 && r < w then Grown(Bitmaps(a, n, w), r) else Bitmaps(a, n, w) + [Full(1)]
    decreases n
  {
    hide First, Packed, Bitmaps;
    if n <= RCBS - a % RCBS {
      r := OneChunkMore(a, n, w);
    } else {
      var c := First(a, n);
      SameFirst(a, n);
      BitmapsStep(a, n, c, w);
      BitmapsStep(a, n + 1, c, w);
      r := BitmapsMore(a + c, n - c, w);
      Behind(Packed(c, w), Bitmaps(a + c, n - c, w), r);
    }
  }

  lemma SameFirst(a: nat, n: nat)
    requires n > RCBS - a % RCBS
    ensures First(a, n + 1) == First(a, n) < n && (a + First(a, n)) % RCBS == 0
  {
  }

  lemma Behind(x: seq<nat>, y: seq<nat>, r: nat)
    requires y != []
    ensures x + (y + [Full(1)]) == x + y + [Full(1)] && x + Grown(y, r) == Grown(x + y, r)
  {
  }

  lemma OneChunkMore(a: nat, n: nat, w: nat) returns (r: nat)
    requires w > 0 && 0 < n <= RCBS - a % RCBS
    ensures LastHolds(Bitmaps(a, n, w), r, w)
    ensures Bitmaps(a, n + 1, w) ==
      if (a + n) % RCBS != 0 && r < w then Grown(Bitmaps(a, n, w), r) else Bitmaps(a, n, w) + [Full(1)]
  {
    hide First, Packed, Bitmaps;
    FirstBoth(a, n);
    BitmapsStep(a, n, n, w);
    BitmapsStep(a, n + 1, First(a, n + 1), w);
    NoBitmaps(a, n, w);
    r := PackedMore(n, w);
  }

  lemma NoBitmaps(a: nat, n: nat, w: nat)
    requires w > 0
    ensures Bitmaps(a + n, 0, w) == [] && Bitmaps(a + n + 1, 0, w) == [] && Bitmaps(a + n, 1, w) == [Full(1)]
    ensures Packed(n, w) + [] == Packed(n, w) && Packed(n + 1, w) + [] == Packed(n + 1, w)
  {
    assert First(a + n, 1) == 1;
  }

  lemma FirstBoth(a: nat, n: nat)
    requires n <= RCBS - a % RCBS
    ensures First(a, n) == n
    ensures First(a, n + 1) == if n < RCBS - a % RCBS then n + 1 else n
    ensures n == RCBS - a % RCBS <==> n > 0 && (a + n) % RCBS == 0
  {
  }

  // ---------------------------------------------------------------- the simulation

  function Padded(words: seq<nat>): seq<nat> {
    words + Repeat(0, if |words| < 4 then 4 - |words| else 0)
  }

  // The simulation after n dwords, ready to set bit wptr of the word.
  ghost predicate Ready(a: nat, n: nat, w: nat, done: seq<nat>, word: nat, wptr: nat)
    requires w > 0
  {
    && wptr < w && word == Full(wptr)
    && (wptr > 0 ==> (a + n) % RCBS != 0 && Bitmaps(a, n, w) == done + [word])
    && (wptr == 0 ==> Bitmaps(a, n, w) == done && (n > 0 ==> (a + n) % RCBS == 0 || LastHolds(done, w, w)))
  }

  // The same with the word at a boundary not yet put away.
  ghost predicate Simulated(a: nat, n: nat, w: nat, done: seq<nat>, word: nat, wptr: nat, start: bool)
    requires w > 0
  {
    if start then n > 0 && (a + n) % RCBS == 0 && word > 0 && Bitmaps(a, n, w) == done + [word]
    else Ready(a, n, w, done, word, wptr)
  }

  lemma FullGrows(i: nat, j: nat)
    requires i < j
    ensures Full(i) < Full(j)
  {
    Pow2Monotone(i + 1, j);
    assert Pow2(i + 1) == 2 * Pow2(i);
  }

  lemma FullDiffers(i: nat, j: nat)
    requires Full(i) == Full(j)
    ensures i == j
  {
    if i < j {
      FullGrows(i, j);
    } else if j < i {
      FullGrows(j, i);
    }
  }

  lemma ReadyMore(a: nat, n: nat, w: nat, done: seq<nat>, word: nat, wptr: nat)
    requires w > 0 && Ready(a, n, w, done, word, wptr)
    ensures Bitmaps(a, n + 1, w) == done + [Full(wptr + 1)]
  {
    hide Bitmaps, Full, Pow2;
    if n == 0 {
      NoBitmaps(a, 0, w);
    } else {
      var r := BitmapsMore(a, n, w);
      if wptr > 0 {
        FullDiffers(r, wptr);
      } else if (a + n) % RCBS != 0 {
        FullDiffers(r, w);
      }
    }
  }

  // words_count_long for RCB = 0: every dword of the request sets one bit.
  method WordsCountLong(a: nat, s: nat, w: nat) returns (count: nat, wArr: seq<nat>)
    requires w > 0
    ensures wArr == Padded(Bitmaps(a / 4, s, w)) && count == |wArr|
  {
    hide Bitmaps, LastHolds, Or, Pow2;
    var first := a / 4;
    var start := false;
    var wptr, word := 0, 0;
    wArr := [];
    NoBitmaps(first, 0, w);
    FullLast([], 1, 1);
    for dwordA := first to first + s
      invariant Simulated(first, dwordA - first, w, wArr, word, wptr, start)
    {
      if start {
        wArr := wArr + [word];
        wptr, word, start := 0, 0, false;
      }
      ReadyMore(first, dwordA - first, w, wArr, word, wptr);
      FullLast(wArr, wptr + 1, w);
      SetBit(word, wptr);
      word := Or(Pow2(wptr), word);
      if (dwordA + 1) % RCBS == 0 {
        start := true;
      } else {
        wptr := wptr + 1;
        if wptr == w {
          wArr := wArr + [word];
          wptr, word := 0, 0;
        }
      }
    }
    if wptr > 0 { FullLast([], wptr, wptr); }
    if word != 0 {
      wArr := wArr + [word];
    }
    ghost var words := wArr;
    assert words == Bitmaps(first, s, w);
    while |wArr| < 4
      invariant |words| <= |wArr| && wArr == words + Repeat(0, |wArr| - |words|)
      invariant |wArr| <= 4 || wArr == words
    {
      wArr := wArr + [0];
    }
    count := |wArr|;
  }

  lemma FullLast(done: seq<nat>, k: nat, w: nat)
    requires 0 < k <= w
    ensures Full(k) > 0 && Full(0) == 0
    ensures k == w ==> LastHolds(done + [Full(k)], w, w)
  {
    assert Pow2(k) == 2 * Pow2(k - 1);
  }

  lemma SetBit(word: nat, wptr: nat)
    requires word == Full(wptr)
    ensures Or(Pow2(wptr), word) == Full(wptr + 1)
  {
    ShlOne(wptr);
    OrShl(1, wptr, word);
  }

  lemma {:induction false} ShlOne(k: nat)
    ensures Shl(1, k) == Pow2(k)
  {
    if k > 0 { ShlOne(k - 1); }
  }

  // ---------------------------------------------------------------- the closed form

  // Dwords per bus word, 1 << l, for the widths that divide a boundary.
  function Wide(l: nat): (w: nat)
    ensures w > 0
  {
    if l == 0 then 1 else if l == 1 then 2 else if l == 2 then 4 else if l == 3 then 8 else 16
  }

  // n >> l and n // Wide(l), rounding down.
  function Down(n: int, l: nat): int {
    if l == 0 then n else if l == 1 then n / 2 else if l == 2 then n / 4 else if l == 3 then n / 8 else n / 16
  }

  function Up(n: int, l: nat): int {
    if l == 0 then n else if l == 1 then n * 2 else if l == 2 then n * 4 else if l == 3 then n * 8 else n * 16
  }

  lemma WideIs(n: int, l: nat)
    requires l <= 4
    ensures Wide(l) == Pow2(l) && Down(n, l) == n / Pow2(l) && Up(n, l) == n * Pow2(l)
  {
    assert Pow2(1) == 2 && Pow2(2) == 4 && Pow2(3) == 8 && Pow2(4) == 16;
  }

  lemma {:induction false} CeilIs(n: nat, l: nat)
    ensures CeilDiv(n, Wide(l)) == Down(n + Wide(l) - 1, l)
    decreases n
  {
    if n > Wide(l) { CeilIs(n - Wide(l), l); }
  }

  lemma DownChunk(n: nat, l: nat)
    ensures Down(n + RCBS, l) == Down(n, l) + CeilDiv(RCBS, Wide(l)) && Down(0, l) == 0
  {
    CeilIs(RCBS, l);
  }

  // Whole completions, then the rest: the sum from an aligned address.
  lemma {:induction false} AlignedSum(a: nat, n: nat, l: nat)
    requires a % RCBS == 0
    ensures ChunkSum(a, n, Wide(l)) == Down(n - n % RCBS, l) + CeilDiv(n % RCBS, Wide(l))
    decreases n
  {
    hide CeilDiv, ChunkSum, Down, Wide, First;
    AlignedFirst(a, n);
    if n >= RCBS {
      AlignedSum(a + RCBS, n - RCBS, l);
      DownChunk(n - RCBS - (n - RCBS) % RCBS, l);
      BitmapsStep(a, n, RCBS, Wide(l));
    } else {
      DownChunk(0, l);
      NoSum(a, Wide(l));
      NoWords(Wide(l));
      if n > 0 {
        BitmapsStep(a, n, n, Wide(l));
        NoSum(a + n, Wide(l));
      }
    }
  }

  lemma AlignedFirst(a: nat, n: nat)
    requires a % RCBS == 0
    ensures First(a, n) == if n < RCBS then n else RCBS
    ensures (a + RCBS) % RCBS == 0
    ensures n >= RCBS ==> (n - RCBS) % RCBS == n % RCBS
  {
  }

  lemma NoWords(w: nat)
    requires w > 0
    ensures CeilDiv(0, w) == 0
  {
  }

  lemma NoSum(a: nat, w: nat)
    requires w > 0
    ensures ChunkSum(a, 0, w) == 0
  {
  }

  // The sum from an unaligned address.
  function UnalignedWords(u: nat, n: nat, l: nat): int {
    if u + n < RCBS then CeilDiv(n, Wide(l))
    else
      var first := if u < RCBS then RCBS - u else 0;
      CeilDiv(first, Wide(l)) + Down(u + n - RCBS - (u + n) % RCBS, l) + CeilDiv((u + n) % RCBS, Wide(l))
  }

  lemma UnalignedSum(a: nat, n: nat, l: nat)
    requires a % RCBS != 0
    ensures ChunkSum(a, n, Wide(l)) == UnalignedWords(a % RCBS, n, l)
  {
    hide CeilDiv, ChunkSum, Down, Wide, First;
    var c := First(a, n);
    UnalignedFirst(a, n);
    NoSum(a + n, Wide(l));
    NoWords(Wide(l));
    if n > 0 {
      BitmapsStep(a, n, c, Wide(l));
      if a % RCBS + n >= RCBS { AlignedSum(a + c, n - c, l); }
    }
  }

  lemma UnalignedFirst(a: nat, n: nat)
    requires a % RCBS != 0
    ensures a % RCBS + n < RCBS ==> First(a, n) == n
    ensures a % RCBS + n >= RCBS ==> First(a, n) == RCBS - a % RCBS && (a + First(a, n)) % RCBS == 0
    ensures a % RCBS + n >= RCBS ==> (n - First(a, n)) % RCBS == (a % RCBS + n) % RCBS
  {
  }

  // What the hardware computes for the first completion is a rounded-up quotient.
  lemma FirstWords(u: nat, l: nat)
    requires u < RCBS
    ensures Down(RCBS - Up(Down(u, l), l), l) == CeilDiv(RCBS - u, Wide(l))
  {
    hide CeilDiv;
    CeilIs(RCBS - u, l);
    match l
    case 0 =>
    case 1 =>
    case 2 =>
    case 3 =>
    case _ =>
  }

  // words_count_short with the request length as parameter.
  method ShortCount(a: nat, lenU: nat, l: nat) returns (s: int)
    requires l <= 4
    ensures s == ChunkSum(a / 4, lenU, Wide(l))
  {
    hide ChunkSum, CeilDiv, Down, Up, Wide;
    var addrU := a / 4;
    var addrURcbs := addrU % RCBS;
    var lenURcbs := lenU % RCBS;
    var endAddrU := addrURcbs + lenURcbs;
    var endAddrURcbs := endAddrU % RCBS;
    var lenRestU := lenU - (RCBS - addrURcbs) - endAddrURcbs;
    var addrURcbsRounddown := Up(Down(addrURcbs, l), l);
    var wordsInFirstRcbsU := Down(RCBS - addrURcbsRounddown, l);
    var wordsInLastRcbsU := Down(endAddrURcbs + Wide(l) - 1, l);
    EndOf(addrURcbs, lenU);
    NoWords(Wide(l));
    CeilIs(endAddrURcbs, l);
    if addrURcbs == 0 {
      AlignedSum(addrU, lenU, l);
      if endAddrURcbs == 0 {
        s := Down(lenU, l);
      } else {
        s := Down(lenU - endAddrURcbs, l);
        s := s + wordsInLastRcbsU;
      }
    } else {
      UnalignedSum(addrU, lenU, l);
      if lenU / RCBS == 0 && endAddrU / RCBS % 2 == 0 {
        CeilIs(lenU, l);
        s := Down(lenU + Wide(l) - 1, l);
      } else {
        FirstWords(addrURcbs, l);
        if endAddrURcbs == 0 {
          s := wordsInFirstRcbsU;
          s := s + Down(lenRestU, l);
        } else {
          s := wordsInFirstRcbsU;
          s := s + Down(lenRestU, l);
          s := s + wordsInLastRcbsU;
        }
      }
    }
  }

  lemma EndOf(u: nat, n: nat)
    requires u < RCBS
    ensures (u + n % RCBS) % RCBS == (u + n) % RCBS
    ensures n / RCBS == 0 && (u + n % RCBS) / RCBS % 2 == 0 <==> u + n < RCBS
  {
  }

  // words_count_short as written: the length is overwritten before it is used.
  method WordsCountShort(a: nat, s: nat, l: nat) returns (count: int)
    requires l <= 4
    ensures count == 0
    ensures count == ChunkSum(a / 4, s, Wide(l)) <==> s == 0
  {
    NoSum(a / 4, Wide(l));
    if s > 0 { SumPositive(a / 4, s, Wide(l)); }
    count := ShortCount(a, 0, l);
  }

  lemma SumPositive(a: nat, n: nat, w: nat)
    requires w > 0 && n > 0
    ensures ChunkSum(a, n, w) > 0
  {
  }

  // Simulation and closed form agree, for every address and length.
  method Agree(a: nat, s: nat, l: nat) returns (long: nat, short: int)
    requires l <= 4
    ensures long == if short < 4 then 4 else short
  {
    var wArr: seq<nat>;
    long, wArr := WordsCountLong(a, s, Wide(l));
    short := ShortCount(a, s, l);
    BitmapsCount(a / 4, s, Wide(l));
  }
}
