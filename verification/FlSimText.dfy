// The FL_SIM text of a packet capture: the encoder of pcap2sim and the decoder of sim2pcap.
module FlSimText {
  import opened Numbers
  import opened Options
  import opened HexDigits

  const MARK: string := "#\n"

  // ---------------------------------------------------------------- hex digits

  // hex(ord(c)) with a leading zero put in where it has one digit only.
  function HexByte(b: byte): (h: string)
    ensures |h| == 2
  {
    [HexDigit(b / 16), HexDigit(b % 16)]
  }

  predicate Blank(c: char) {
    c == ' ' || c == '\t' || c == '\r' || c == (11 as char) || c == (12 as char)
  }

  // int(c + d, 16) as a character code: blanks around a digit and a sign before it are
  // accepted, a negative code is not.
  function PairValue(c: char, d: char): (v: int)
    ensures -1 <= v < 256
  {
    var x, y := DigitValue(c), DigitValue(d);
    if x >= 0 && y >= 0 then 16 * x + y
    else if y >= 0 && (Blank(c) || c == '+' || (c == '-' && y == 0)) then y
    else if x >= 0 && Blank(d) then x
    else -1
  }

  // int(s, 16) of a text: blanks around it are dropped, one sign may stand before its digits.
  function PyInt(s: string): Option<int> {
    Signed(TrimmedEnd(TrimmedStart(s)))
  }

  function Signed(t: string): Option<int> {
    var digits := if t != "" && (t[0] == '+' || t[0] == '-') then t[1..] else t;
    var value: int := HexVal(digits);
    if digits == "" || !AllHex(digits) then None else Some(if t[0] == '-' then 0 - value else value)
  }

  function TrimmedStart(s: string): string {
    if s != "" && Blank(s[0]) then TrimmedStart(s[1..]) else s
  }

  function TrimmedEnd(s: string): string {
    if s != "" && Blank(s[|s| - 1]) then TrimmedEnd(s[..|s| - 1]) else s
  }

  // A pair of characters is what int makes of it, as a character code.
  lemma PairIs(c: char, d: char)
    ensures PairValue(c, d) == var v := PyInt([c, d]); if v.Some? && v.value >= 0 then v.value else -1
  {
    hide DigitValue, HexVal;
    TrimmedPair(c, d);
    SignedPair(c, d);
    SignedOne(c);
    SignedOne(d);
    Digitless(c);
    Digitless(d);
  }

  lemma TrimmedPair(c: char, d: char)
    ensures TrimmedEnd(TrimmedStart([c, d])) ==
      if Blank(c) then (if Blank(d) then "" else [d]) else if Blank(d) then [c] else [c, d]
  {
    TrimmedOne(c);
    TrimmedOne(d);
    assert [c, d][1..] == [d] && [c, d][..1] == [c];
    if Blank(c) {
      assert TrimmedStart([c, d]) == TrimmedStart([d]);
    } else {
      assert TrimmedStart([c, d]) == [c, d];
      assert TrimmedEnd([c, d]) == if Blank(d) then TrimmedEnd([c]) else [c, d];
    }
  }

  lemma TrimmedOne(c: char)
    ensures TrimmedStart([c]) == TrimmedEnd([c]) == (if Blank(c) then "" else [c]) && TrimmedEnd("") == ""
  {
    assert [c][1..] == "" && [c][..0] == "";
  }

  lemma Digitless(c: char)
    ensures Blank(c) || c == '+' || c == '-' ==> DigitValue(c) < 0
    ensures DigitValue(c) < 16
  {
  }

  lemma SignedOne(c: char)
    ensures Signed("") == None
    ensures Signed([c]) == if DigitValue(c) >= 0 then Some(DigitValue(c)) else None
  {
    assert [c][1..] == "" && [c][..0] == "";
    assert HexVal([c]) == if DigitValue(c) >= 0 then DigitValue(c) else 0;
  }

  lemma SignedPair(c: char, d: char)
    ensures Signed([c, d]) == var x, y := DigitValue(c), DigitValue(d);
      if y < 0 then None
      else if c == '-' then Some(0 - y)
      else if c == '+' then Some(y)
      else if x >= 0 then Some(16 * x + y)
      else None
  {
    hide DigitValue;
    Digitless(c);
    var s := [c, d];
    assert s[1..] == [d] && s[..1] == [c] && [c][..0] == "" && [d][..0] == "";
    assert HexVal([d]) == if DigitValue(d) >= 0 then DigitValue(d) else 0;
    assert HexVal([c]) == if DigitValue(c) >= 0 then DigitValue(c) else 0;
    assert HexVal(s) == 16 * HexVal([c]) + if DigitValue(d) >= 0 then DigitValue(d) else 0;
    assert AllHex([d]) <==> DigitValue(d) >= 0 by { assert [d][0] == d; }
    assert AllHex(s) <==> DigitValue(c) >= 0 && DigitValue(d) >= 0 by { assert s[0] == c && s[1] == d; }
  }

  lemma HexByteValue(b: byte)
    ensures PairValue(HexByte(b)[0], HexByte(b)[1]) == b
    ensures forall i :: 0 <= i < 2 ==> HexByte(b)[i] != '\n' && HexByte(b)[i] != '#'
  {
    DigitBack(b / 16);
    DigitBack(b % 16);
  }

  function HexText(packet: seq<byte>): string {
    if packet == [] then "" else HexByte(packet[0]) + HexText(packet[1..])
  }

  // ---------------------------------------------------------------- the text

  // The pairs of s in opposite order.
  function SwapPairs(s: string): (r: string)
    ensures |s| % 2 == 0 ==> |r| == |s|
  {
    if |s| < 2 then "" else SwapPairs(s[2..]) + s[..2]
  }

  // Words of four bytes, the last one possibly shorter, each on its line.
  function Lines(s: string): string {
    if s == "" then ""
    else if |s| < 8 then SwapPairs(s) + "\n"
    else SwapPairs(s[..8]) + "\n" + Lines(s[8..])
  }

  function Text(packets: seq<seq<byte>>): string {
    if packets == [] then "" else Lines(HexText(packets[0])) + MARK + Text(packets[1..])
  }

  lemma {:induction false} HexTextLength(packet: seq<byte>)
    ensures |HexText(packet)| == 2 * |packet|
  {
    if packet != [] { HexTextLength(packet[1..]); }
  }

  lemma {:induction false} SwapAppend(s: string, pair: string)
    requires |s| % 2 == 0 && |pair| == 2
    ensures SwapPairs(s + pair) == pair + SwapPairs(s)
  {
    if s == "" {
      assert s + pair == pair && pair[2..] == "" && pair[..2] == pair;
    } else {
      assert (s + pair)[2..] == s[2..] + pair && (s + pair)[..2] == s[..2];
      SwapAppend(s[2..], pair);
    }
  }

  lemma {:induction false} SwapTwice(s: string)
    requires |s| % 2 == 0
    ensures SwapPairs(SwapPairs(s)) == s
  {
    if s != "" {
      SwapTwice(s[2..]);
      SwapAppend(SwapPairs(s[2..]), s[..2]);
    }
  }

  // ---------------------------------------------------------------- what a line says

  // Pairs in opposite order: the bytes as one number, the first byte lowest.
  lemma {:induction false} SwappedValue(packet: seq<byte>)
    ensures HexVal(SwapPairs(HexText(packet))) == Pack(8, packet)
    ensures |SwapPairs(HexText(packet))| == 2 * |packet|
    ensures LowerHex(SwapPairs(HexText(packet)))
  {
    hide HexVal, DigitValue;
    HexTextLength(packet);
    if packet == [] {
      assert HexVal("") == 0 by { NoHex(); }
    } else {
      var b, rest := packet[0], HexText(packet[1..]);
      SwappedValue(packet[1..]);
      var s := HexByte(b) + rest;
      assert s[2..] == rest && s[..2] == HexByte(b);
      HexAppend(SwapPairs(rest), HexByte(b));
      HexByteIs(b);
    }
  }

  lemma NoHex()
    ensures HexVal("") == 0
  {
  }

  predicate LowerHex(s: string) {
    forall i :: 0 <= i < |s| ==> s[i] in "0123456789abcdef"
  }

  lemma HexByteIs(b: byte)
    ensures HexVal(HexByte(b)) == b && LowerHex(HexByte(b))
  {
    var s := HexByte(b);
    assert s[..1] == [s[0]] && s[..1][..0] == "";
    DigitBack(b / 16);
    DigitBack(b % 16);
    assert HexVal(s[..1]) == b / 16;
  }

  lemma {:induction false} HexTextAppend(a: seq<byte>, b: seq<byte>)
    ensures HexText(a + b) == HexText(a) + HexText(b)
  {
    if a == [] {
      assert a + b == b && "" + HexText(b) == HexText(b);
    } else {
      assert (a + b)[0] == a[0] && (a + b)[1..] == a[1..] + b;
      HexTextAppend(a[1..], b);
    }
  }

  // The first line of a packet writes its first four bytes, or all there are, as a lower-case
  // hexadecimal number of two digits a byte, the first byte lowest; the other lines write the
  // bytes after them.
  lemma FirstLine(packet: seq<byte>) returns (line: string)
    requires packet != []
    ensures var k := if |packet| < 4 then |packet| else 4;
      && |line| == 2 * k && LowerHex(line) && HexVal(line) == Pack(8, packet[..k])
      && Lines(HexText(packet)) == line + "\n" + Lines(HexText(packet[k..]))
  {
    hide SwapPairs, HexVal, Lines, HexText;
    var k := if |packet| < 4 then |packet| else 4;
    var a, b := packet[..k], packet[k..];
    assert packet == a + b;
    HexTextAppend(a, b);
    HexTextLength(packet);
    HexTextLength(a);
    SwappedValue(a);
    line := SwapPairs(HexText(a));
    var s := HexText(packet);
    assert s[0..] == s && s[0..2 * k] == HexText(a) && s[2 * k..] == HexText(b);
    LinesStep(s, 0, 2 * k);
  }

  // A packet without bytes has no lines, and every packet ends with its mark.
  lemma PacketsAre(packets: seq<seq<byte>>)
    ensures Lines(HexText([])) == "" && Text([]) == ""
    ensures packets != [] ==> Text(packets) == Lines(HexText(packets[0])) + "#\n" + Text(packets[1..])
  {
  }

  // ---------------------------------------------------------------- the encoder

  method HexOf(packet: seq<byte>) returns (s: string)
    ensures s == HexText(packet)
  {
    s := "";
    for i := 0 to |packet|
      invariant s + HexText(packet[i..]) == HexText(packet)
    {
      assert packet[i..][1..] == packet[i + 1..];
      s := s + HexByte(packet[i]);
    }
  }

  // The next word: up to four byte pairs, last pair first.
  method EncodeWord(s: string, i0: nat) returns (n: string, i: nat)
    requires i0 < |s| && (|s| - i0) % 2 == 0
    ensures i == i0 + WordLength(|s| - i0) && n == SwapPairs(s[i0..i])
  {
    hide SwapPairs;
    i, n := i0, "";
    var p := i;
    if |s| - i < 8 {
      Swapped(s[i..]);
      if |s| - p == 2 {
        n := [s[i], s[i + 1]];
        i := i + 2;
      }
      if |s| - p == 4 {
        n := [s[i + 2], s[i + 3], s[i], s[i + 1]];
        i := i + 4;
      }
      if |s| - p == 6 {
        n := [s[i + 4], s[i + 5], s[i + 2], s[i + 3], s[i], s[i + 1]];
        i := i + 6;
      }
      assert s[i0..i] == s[i0..];
    } else {
      Swapped(s[i..i + 8]);
      n := [s[i + 6], s[i + 7], s[i + 4], s[i + 5], s[i + 2], s[i + 3], s[i], s[i + 1]];
      i := i + 8;
    }
  }

  function WordLength(n: nat): (k: nat)
    ensures k <= n && (n > 0 ==> k > 0) && (n % 2 == 0 ==> k % 2 == 0)
  {
    if n < 8 then n else 8
  }

  // The lines of one packet.
  method EncodePacket(packet: seq<byte>) returns (t: string)
    ensures t == Lines(HexText(packet))
  {
    hide SwapPairs, HexText, Lines, HexByte;
    var s := HexOf(packet);
    HexTextLength(packet);
    t := "";
    var i := 0;
    NoLines();
    assert s[0..] == s;
    while i < |s|
      invariant 0 <= i <= |s| && i % 2 == 0 && t + Lines(s[i..]) == Lines(s)
    {
      var n: string;
      ghost var p := i;
      n, i := EncodeWord(s, i);
      LinesStep(s, p, i);
      Regroup(t, n, Lines(s[i..]));
      t := t + n + "\n";
    }
    assert s[i..] == "" && t + "" == t;
  }

  lemma Regroup(t: string, n: string, rest: string)
    ensures t + n + "\n" + rest == t + (n + "\n" + rest)
  {
  }

  lemma NoLines()
    ensures Lines("") == ""
  {
  }

  lemma LinesStep(s: string, p: nat, i: nat)
    requires p < |s| && i == p + WordLength(|s| - p)
    ensures Lines(s[p..]) == SwapPairs(s[p..i]) + "\n" + Lines(s[i..])
  {
    hide SwapPairs;
    if |s| - p < 8 {
      assert s[p..i] == s[p..] && s[i..] == "";
    } else {
      assert s[p..][..8] == s[p..i] && s[p..][8..] == s[i..];
    }
  }

  lemma SwapStep(w: string)
    requires |w| >= 2
    ensures SwapPairs(w) == SwapPairs(w[2..]) + [w[0], w[1]]
  {
    hide SwapPairs;
    SwapUnfold(w);
    FirstTwo(w);
  }

  lemma FirstTwo(w: string)
    requires |w| >= 2
    ensures w[..2] == [w[0], w[1]]
  {
  }

  lemma SwapUnfold(w: string)
    requires |w| >= 2
    ensures SwapPairs(w) == SwapPairs(w[2..]) + w[..2]
  {
  }

  lemma Swap2(w: string)
    requires |w| == 2
    ensures SwapPairs(w) == [w[0], w[1]]
  {
    assert w[2..] == "" && SwapPairs("") == "";
  }

  lemma Swap4(w: string)
    requires |w| == 4
    ensures SwapPairs(w) == [w[2], w[3], w[0], w[1]]
  {
    hide SwapPairs;
    SwapStep(w);
    Swap2(w[2..]);
  }

  lemma Swap6(w: string)
    requires |w| == 6
    ensures SwapPairs(w) == [w[4], w[5], w[2], w[3], w[0], w[1]]
  {
    hide SwapPairs;
    SwapStep(w);
    Swap4(w[2..]);
  }

  // What the four index patterns write.
  lemma Swapped(w: string)
    ensures |w| == 2 ==> SwapPairs(w) == [w[0], w[1]]
    ensures |w| == 4 ==> SwapPairs(w) == [w[2], w[3], w[0], w[1]]
    ensures |w| == 6 ==> SwapPairs(w) == [w[4], w[5], w[2], w[3], w[0], w[1]]
    ensures |w| == 8 ==> SwapPairs(w) == [w[6], w[7], w[4], w[5], w[2], w[3], w[0], w[1]]
  {
    hide SwapPairs;
    if |w| == 2 { Swap2(w); }
    if |w| == 4 { Swap4(w); }
    if |w| == 6 { Swap6(w); }
    if |w| == 8 {
      SwapStep(w);
      Swap6(w[2..]);
    }
  }

  method EncodeAll(packets: seq<seq<byte>>) returns (g: string)
    ensures g == Text(packets)
  {
    g := "";
    for i := 0 to |packets|
      invariant g + Text(packets[i..]) == Text(packets)
    {
      var t := EncodePacket(packets[i]);
      assert packets[i..][1..] == packets[i + 1..];
      g := g + (t + MARK);
      assert g + Text(packets[i + 1..]) == Text(packets);
    }
  }

  // ---------------------------------------------------------------- the decoder

  // re.split with a literal of one or two characters.
  function Split(mark: string, s: string): (parts: seq<string>)
    requires mark != ""
    ensures parts != []
  {
    if |s| < |mark| then [s]
    else if s[..|mark|] == mark then [""] + Split(mark, s[|mark|..])
    else
      var rest := Split(mark, s[1..]);
      [[s[0]] + rest[0]] + rest[1..]
  }

  // A word contributes its pairs in opposite order; other lengths are skipped.
  function WordHex(word: string): string {
    if |word| in [2, 4, 6, 8] then SwapPairs(word) else ""
  }

  function WordsHex(words: seq<string>): string {
    if words == [] then "" else WordHex(words[0]) + WordsHex(words[1..])
  }

  // done, and then what is still to come.
  function Joined<T>(done: seq<T>, rest: Option<seq<T>>): Option<seq<T>> {
    if rest.None? then None else Some(done + rest.value)
  }

  lemma JoinedTwice<T>(a: seq<T>, b: seq<T>, c: Option<seq<T>>)
    ensures Joined(a, Joined(b, c)) == Joined(a + b, c)
    ensures Joined([], c) == c && Joined(a, Some([])) == Some(a)
  {
    if c.Some? {
      assert a + (b + c.value) == a + b + c.value;
      assert [] + c.value == c.value;
    }
    assert a + [] == a;
  }

  // Pairs to bytes; a pair that is no number is an error.
  function Unhex(s: string): Option<seq<byte>>
    requires |s| % 2 == 0
  {
    if s == "" then Some([])
    else
      var v := PairValue(s[0], s[1]);
      if v < 0 then None else Joined([v as byte], Unhex(s[2..]))
  }

  lemma WordHexEven(word: string)
    ensures |WordHex(word)| % 2 == 0
  {
    hide SwapPairs;
  }

  lemma {:induction false} WordsHexEven(words: seq<string>)
    ensures |WordsHex(words)| % 2 == 0
  {
    hide WordHex;
    if words != [] {
      WordHexEven(words[0]);
      WordsHexEven(words[1..]);
    }
  }

  function DecodePart(part: string): Option<seq<byte>> {
    WordsHexEven(Split("\n", part));
    Unhex(WordsHex(Split("\n", part)))
  }

  // Empty parts are no packets.
  function DecodeParts(parts: seq<string>): Option<seq<seq<byte>>> {
    if parts == [] then Some([])
    else if parts[0] == "" then DecodeParts(parts[1..])
    else
      var packet := DecodePart(parts[0]);
      if packet.None? then None else Joined([packet.value], DecodeParts(parts[1..]))
  }

  // The decoder's branches for one word.
  method DecodeWord(w: string) returns (s: string)
    ensures s == WordHex(w)
  {
    hide SwapPairs;
    Swapped(w);
    s := "";
    if |w| == 2 {
      s := [w[0], w[1]];
    }
    if |w| == 4 {
      s := [w[2], w[3], w[0], w[1]];
    }
    if |w| == 6 {
      s := [w[4], w[5], w[2], w[3], w[0], w[1]];
    }
    if |w| == 8 {
      s := [w[6], w[7], w[4], w[5], w[2], w[3], w[0], w[1]];
    }
  }

  // The decoder's loop over the words of a part.
  method GatherWords(words: seq<string>) returns (s: string)
    ensures s == WordsHex(words)
  {
    hide WordHex;
    s := "";
    for j := 0 to |words|
      invariant s + WordsHex(words[j..]) == WordsHex(words)
    {
      assert words[j..][0] == words[j] && words[j..][1..] == words[j + 1..];
      var n := DecodeWord(words[j]);
      s := s + n;
    }
  }

  lemma UnhexStep(s: string, j: nat)
    requires |s| % 2 == 0 && j % 2 == 0 && j < |s|
    ensures var v := PairValue(s[j], s[j + 1]);
      Unhex(s[j..]) == if v < 0 then None else Joined([v as byte], Unhex(s[j + 2..]))
  {
    hide PairValue, Joined;
    assert s[j..][2..] == s[j + 2..] && s[j..][0] == s[j] && s[j..][1] == s[j + 1];
  }

  // The decoder's loop over the digit pairs.
  method GatherBytes(s: string) returns (d: Option<seq<byte>>)
    requires |s| % 2 == 0
    ensures d == Unhex(s)
  {
    hide PairValue, Unhex, Joined;
    var j, bytes := 0, [];
    assert s[0..] == s;
    JoinedTwice([], [], Unhex(s));
    while j < |s|
      invariant 0 <= j <= |s| && j % 2 == 0
      invariant Unhex(s) == Joined(bytes, Unhex(s[j..]))
    {
      var v := PairValue(s[j], s[j + 1]);
      UnhexStep(s, j);
      if v < 0 {
        JoinedNone(bytes);
        return None;
      }
      JoinedTwice(bytes, [v as byte], Unhex(s[j + 2..]));
      bytes := bytes + [v as byte];
      j := j + 2;
    }
    UnhexNothing();
    assert s[j..] == "";
    JoinedTwice(bytes, [], Some([]));
    d := Some(bytes);
  }

  lemma UnhexNothing()
    ensures Unhex("") == Some([])
  {
  }

  lemma JoinedSome<T>(a: seq<T>, b: seq<T>)
    ensures Joined(a, Some(b)) == Some(a + b)
  {
  }

  lemma JoinedNone<T>(a: seq<T>)
    ensures Joined(a, None) == None
  {
  }

  lemma PartsStep(parts: seq<string>, i: nat)
    requires i < |parts|
    ensures parts[i] == "" ==> DecodeParts(parts[i..]) == DecodeParts(parts[i + 1..])
    ensures parts[i] != "" && DecodePart(parts[i]).None? ==> DecodeParts(parts[i..]) == None
    ensures parts[i] != "" && DecodePart(parts[i]).Some? ==>
      DecodeParts(parts[i..]) == Joined([DecodePart(parts[i]).value], DecodeParts(parts[i + 1..]))
  {
    hide DecodePart, Joined;
    assert parts[i..][1..] == parts[i + 1..] && parts[i..][0] == parts[i];
  }

  method DecodeAll(blob: string) returns (r: Option<seq<seq<byte>>>)
    ensures r == DecodeParts(Split(MARK, blob))
  {
    hide DecodeParts, Joined, Unhex, WordsHex, Split;
    var parts := Split(MARK, blob);
    var packets := [];
    assert parts[0..] == parts;
    JoinedTwice([], [], DecodeParts(parts));
    for i := 0 to |parts|
      invariant DecodeParts(parts) == Joined(packets, DecodeParts(parts[i..]))
    {
      PartsStep(parts, i);
      if |parts[i]| > 0 {
        var words := Split("\n", parts[i]);
        var s := GatherWords(words);
        WordsHexEven(words);
        var d := GatherBytes(s);
        if d.None? {
          JoinedNone(packets);
          return None;
        }
        JoinedTwice(packets, [d.value], DecodeParts(parts[i + 1..]));
        packets := packets + [d.value];
      }
    }
    NoParts();
    assert parts[|parts|..] == [];
    JoinedTwice(packets, [], Some([]));
    r := Some(packets);
  }

  lemma NoParts()
    ensures DecodeParts([]) == Some([])
  {
  }

  // ---------------------------------------------------------------- the round trip

  // Text without the mark's first character is one part.
  lemma {:induction false} SplitFirst(mark: string, x: string, rest: string)
    requires mark != "" && mark[0] !in x
    ensures Split(mark, x + mark + rest) == [x] + Split(mark, rest)
  {
    var s := x + mark + rest;
    if x == "" {
      assert s[..|mark|] == mark && s[|mark|..] == rest;
    } else {
      assert s[0] == x[0] && x[0] in x;
      assert s[1..] == x[1..] + mark + rest;
      SplitFirst(mark, x[1..], rest);
      assert [x[0]] + x[1..] == x;
    }
  }

  predicate Clean(s: string) {
    '#' !in s && '\n' !in s
  }

  lemma {:induction false} HexClean(packet: seq<byte>)
    ensures Clean(HexText(packet))
  {
    if packet != [] {
      HexByteValue(packet[0]);
      HexClean(packet[1..]);
    }
  }

  lemma {:induction false} SwapClean(s: string)
    requires Clean(s)
    ensures Clean(SwapPairs(s))
  {
    if |s| >= 2 { SwapClean(s[2..]); }
  }

  lemma {:induction false} LinesNoMark(s: string)
    requires Clean(s)
    ensures '#' !in Lines(s)
  {
    hide SwapPairs;
    if s != "" {
      var k := WordLength(|s|);
      assert s[0..] == s;
      LinesStep(s, 0, k);
      SwapClean(s[0..k]);
      LinesNoMark(s[k..]);
    }
  }

  // The words of the lines give the digits back.
  lemma {:induction false} LinesBack(s: string)
    requires Clean(s) && |s| % 2 == 0
    ensures WordsHex(Split("\n", Lines(s))) == s
  {
    hide SwapPairs, Split, Lines;
    if s == "" {
      NoWords();
    } else {
      var k := WordLength(|s|);
      assert s[0..] == s;
      var w, rest := s[..k], s[k..];
      LinesStep(s, 0, k);
      SwapClean(w);
      SplitFirst("\n", SwapPairs(w), Lines(rest));
      SwapTwice(w);
      LinesBack(rest);
      assert ([SwapPairs(w)] + Split("\n", Lines(rest)))[1..] == Split("\n", Lines(rest));
    }
  }

  lemma NoWords()
    ensures WordsHex(Split("\n", Lines(""))) == ""
  {
    assert Split("\n", "") == [""] && [""][1..] == [];
  }

  lemma UnhexByte(b: byte, t: string)
    requires |t| % 2 == 0
    ensures Unhex(HexByte(b) + t) == Joined([b], Unhex(t))
  {
    hide PairValue, HexByte, Joined;
    HexByteValue(b);
    var s := HexByte(b) + t;
    assert s[2..] == t && s[0] == HexByte(b)[0] && s[1] == HexByte(b)[1];
  }

  lemma HexTextIs(packet: seq<byte>)
    ensures packet == [] ==> HexText(packet) == ""
    ensures packet != [] ==>
      HexText(packet) == HexByte(packet[0]) + HexText(packet[1..]) && packet == [packet[0]] + packet[1..]
  {
    hide HexByte;
  }

  lemma {:induction false} UnhexBack(packet: seq<byte>)
    ensures |HexText(packet)| % 2 == 0 && Unhex(HexText(packet)) == Some(packet)
  {
    hide HexText, Unhex, Joined, HexByte;
    HexTextIs(packet);
    HexTextLength(packet);
    UnhexNothing();
    if packet != [] {
      UnhexBack(packet[1..]);
      UnhexByte(packet[0], HexText(packet[1..]));
      JoinedSome([packet[0]], packet[1..]);
    }
  }

  function NonEmpty(packets: seq<seq<byte>>): seq<seq<byte>> {
    if packets == [] then []
    else (if packets[0] == [] then [] else [packets[0]]) + NonEmpty(packets[1..])
  }

  lemma PartBack(packet: seq<byte>)
    ensures '#' !in Lines(HexText(packet)) && (Lines(HexText(packet)) == "" <==> packet == [])
    ensures DecodePart(Lines(HexText(packet))) == Some(packet)
  {
    hide Split, SwapPairs, HexText, Unhex, WordsHex;
    HexTextLength(packet);
    HexClean(packet);
    LinesNoMark(HexText(packet));
    LinesBack(HexText(packet));
    UnhexBack(packet);
    assert packet == [] ==> HexText(packet) == "";
  }

  // Decoding the text of any list of packets gives back those that are not empty.
  lemma {:induction false} TextRoundTrip(packets: seq<seq<byte>>)
    ensures DecodeParts(Split(MARK, Text(packets))) == Some(NonEmpty(packets))
  {
    hide Lines, HexText, DecodePart, DecodeParts, Split, Joined;
    if packets == [] {
      LastPart();
    } else {
      var part, rest := Lines(HexText(packets[0])), Text(packets[1..]);
      PartBack(packets[0]);
      SplitFirst(MARK, part, rest);
      TextRoundTrip(packets[1..]);
      var parts := [part] + Split(MARK, rest);
      assert parts[0..] == parts && parts[1..] == Split(MARK, rest);
      PartsStep(parts, 0);
      JoinedSome([packets[0]], NonEmpty(packets[1..]));
      assert [] + NonEmpty(packets[1..]) == NonEmpty(packets[1..]);
    }
  }

  lemma LastPart()
    ensures DecodeParts(Split(MARK, "")) == Some([])
  {
    assert Split(MARK, "") == [""] && [""][1..] == [];
  }

  // Writing packets as text and reading them again.
  method EncodeAndDecode(packets: seq<seq<byte>>) returns (back: Option<seq<seq<byte>>>)
    ensures back == Some(NonEmpty(packets))
  {
    var text := EncodeAll(packets);
    back := DecodeAll(text);
    TextRoundTrip(packets);
  }
}
