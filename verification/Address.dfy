/** `parseAddress` and `intToIp` of IPy.py, with their loops and list edits. */
module Address {
  import opened Prelude
  import opened PyText
  import opened Groups
  import opened Notation

  // ---------------------------------------------------------------- parseAddress

  method ParseAddress(ipstr: string) returns (r: ParseResult)
    ensures r == Parse(ipstr)
    decreases |ipstr|, 1
  {
    if Is0x(ipstr) {
      r := ParseNumber(ipstr[2..], Hex);
    } else if ':' in ipstr {
      r := ParseColons(ipstr);
    } else if |ipstr| == 32 {
      var ret := ReadInt(ipstr, Hex, true);
      r := if ret == None then Raised(BadNumeral) else Ok(Parsed(ret.value, 6));
    } else {
      r := ParseIPv4(ipstr);
    }
  }

  /** A plain number, whose size decides the version. */
  method ParseNumber(digits: string, base: Base) returns (r: ParseResult)
    ensures r == ReadNumber(digits, base)
  {
    var ret := ReadInt(digits, base, true);
    if ret == None {
      return Raised(BadNumeral);
    }
    if ret.value > MAX6 {
      return Raised(AddressTooBig);
    }
    if ret.value < 0x1_0000_0000 {
      return Ok(Parsed(ret.value, 4));
    } else {
      return Ok(Parsed(ret.value, 6));
    }
  }

  method ParseColons(ipstr: string) returns (r: ParseResult)
    requires ':' in ipstr
    ensures r == ReadColons(ipstr)
    decreases |ipstr|, 0
  {
    if HasTripleColon(ipstr) {
      return Raised(TripleColon);
    }
    var hextets := Split(ipstr, ':');
    SplitFree(ipstr, ':');
    if '.' in ipstr {
      assert hextets[|hextets| - 1] in hextets;
      var expanded := ParseTail(hextets);
      if expanded.Raised? {
        return Raised(expanded.error);
      }
      hextets := expanded.value;
    }
    r := ParseHextets(hextets);
  }

  /** The tail of a mixed address, in place of which two hextets are appended. */
  method ParseTail(parts: seq<string>) returns (r: Result<seq<string>, AddressError>)
    requires |parts| >= 1 && ':' !in parts[|parts| - 1]
    ensures r == ExpandTail(parts)
    decreases |parts[|parts| - 1]|, 2
  {
    var hextets := parts;
    var last := hextets[|hextets| - 1];
    var tail := ParseAddress(last);
    SoloParse(last);
    if tail.Raised? {
      return Raised(tail.error);
    }
    if tail.value.version != 4 {
      return Raised(TailNotV4);
    }
    hextets := TailHextets(hextets, tail.value.value);
    return Ok(hextets);
  }

  method TailHextets(parts: seq<string>, v4: int) returns (hextets: seq<string>)
    requires |parts| >= 1
    ensures hextets == parts[..|parts| - 1] + [HexTail(v4 / 65536), HexTail(v4 % 65536)]
  {
    hextets := parts[..|parts| - 1];
    hextets := hextets + [HexTail(v4 / 65536)];
    hextets := hextets + [HexTail(v4 % 65536)];
  }

  lemma SoloParse(s: string)
    requires ':' !in s
    ensures Parse(s) == ReadSolo(s)
  {
  }

  method ParseIPv4(ipstr: string) returns (r: ParseResult)
    requires !Is0x(ipstr) && |ipstr| != 32
    ensures r == ReadSolo(ipstr)
  {
    if '.' in ipstr {
      r := ParseBytes(ipstr);
      return;
    }
    if |ipstr| < 4 {
      var first := ReadInt(ipstr, Decimal, false);
      if first == None {
        return Raised(BadNumeral);
      }
      if first.value < 256 {
        r := ParseBytes(ipstr);
        return;
      }
    }
    r := ParseNumber(ipstr, Decimal);
  }

  /** The dotted branch: missing bytes are zero. */
  method ParseBytes(ipstr: string) returns (r: ParseResult)
    ensures r == ReadDotted(ipstr)
  {
    var parts := Split(ipstr, '.');
    if |parts| > 4 {
      return Raised(TooManyBytes);
    }
    parts := parts + ZeroParts(4 - |parts|);
    var bytes := MapAll(ReadByte, parts);
    if bytes == None {
      return Raised(BadNumeral);
    }
    r := PackFour(bytes.value);
  }

  method PackFour(bytes: seq<int>) returns (r: ParseResult)
    requires |bytes| == 4
    ensures r == PackBytes(bytes)
  {
    for i := 0 to 4
      invariant forall j :: 0 <= j < i ==> 0 <= bytes[j] <= 255
    {
      var x := bytes[i];
      if x > 255 || x < 0 {
        return Raised(ByteOutOfRange);
      }
    }
    return Ok(Parsed(0x100_0000 * bytes[0] + 0x1_0000 * bytes[1] + 0x100 * bytes[2] + bytes[3], 4));
  }

  lemma {:induction false} GapIndexAt(parts: seq<string>, k: nat)
    requires k < |parts| && parts[k] == "" && "" !in parts[..k]
    ensures GapIndex(parts) == k
  {
    if k > 0 {
      assert parts[0] in parts[..k];
      assert parts[1..][..k - 1] == parts[..k][1..];
      GapIndexAt(parts[1..], k - 1);
    }
  }

  /** The list editing around '::', then the hextets one by one. */
  method ParseHextets(parts: seq<string>) returns (r: ParseResult)
    ensures r == ReadParts(parts)
  {
    var hextets := parts;
    if |hextets| > 8 {
      return Raised(TooManyHextets);
    }
    if |hextets| < 8 {
      if "" !in hextets {
        return Raised(TooFewHextets);
      }
      hextets := InsertZeros(hextets);
      if "" in hextets {
        return Raised(RepeatedGap);
      }
    }
    r := ParseEight(hextets);
  }

  /** The gap is made one part wide, then filled until eight hextets are left. */
  method InsertZeros(parts: seq<string>) returns (hextets: seq<string>)
    requires "" in parts && |parts| < 8
    ensures hextets == FillGap(parts)
  {
    hextets := RemoveRepeated(parts);
    hextets := RemoveRepeated(hextets);
    hextets := FillOne(hextets);
  }

  /** `hextets.remove('')` when the first gap is followed by another. */
  method RemoveRepeated(parts: seq<string>) returns (hextets: seq<string>)
    requires "" in parts
    ensures hextets == MergeGap(parts)
  {
    hextets := parts;
    var i := GapIndex(hextets);
    if i < |hextets| - 1 && hextets[i + 1] == "" {
      hextets := hextets[..i] + hextets[i + 1..];
    }
  }

  /** `hextets.insert(hextets.index(''), '0')` for every missing hextet, then the gap goes. */
  method FillOne(merged: seq<string>) returns (hextets: seq<string>)
    requires "" in merged && |merged| < 8
    ensures var i := GapIndex(merged);
            hextets == merged[..i] + ZeroParts(9 - |merged|) + merged[i + 1..]
  {
    hextets := merged;
    ghost var gap := GapIndex(merged);
    var missing := 9 - |hextets|;
    assert hextets == Inserted(merged, gap, 0);
    for foo := 0 to missing
      invariant hextets == Inserted(merged, gap, foo)
    {
      InsertedStep(merged, gap, foo);
      var at := GapIndex(hextets);
      hextets := hextets[..at] + ["0"] + hextets[at..];
    }
    InsertedStep(merged, gap, missing);
    var at := GapIndex(hextets);
    hextets := hextets[..at] + hextets[at + 1..];
  }

  /** The list after n zeros were inserted at its gap. */
  ghost function Inserted(merged: seq<string>, gap: nat, n: nat): seq<string>
    requires gap < |merged|
  {
    merged[..gap] + ZeroParts(n) + merged[gap..]
  }

  lemma InsertedStep(merged: seq<string>, gap: nat, n: nat)
    requires "" in merged && gap == GapIndex(merged)
    ensures var h := Inserted(merged, gap, n);
            && "" in h && GapIndex(h) == gap + n
            && h[..gap + n] + ["0"] + h[gap + n..] == Inserted(merged, gap, n + 1)
            && h[..gap + n] + h[gap + n + 1..] == merged[..gap] + ZeroParts(n) + merged[gap + 1..]
  {
    var h, left := Inserted(merged, gap, n), merged[..gap] + ZeroParts(n);
    assert h == left + merged[gap..] && h[..gap + n] == left && h[gap + n..] == merged[gap..];
    assert h[gap + n + 1..] == merged[gap + 1..];
    assert ZeroParts(n) + ["0"] == ZeroParts(n + 1);
    assert left + ["0"] == merged[..gap] + ZeroParts(n + 1);
    assert h[gap + n] == merged[gap];
    GapIndexAt(h, gap + n);
  }

  method ParseEight(hextets: seq<string>) returns (r: ParseResult)
    ensures r == ReadHextets(hextets)
  {
    if "" in hextets {
      return Raised(NeedlessGap);
    }
    var num := "";
    for k := 0 to |hextets|
      invariant HextetDigits(hextets[..k]) == Ok(num)
    {
      assert hextets[..k + 1][..k] == hextets[..k];
      var next := NextHextet(num, hextets[k]);
      if next.Raised? {
        DigitsFail(hextets, k + 1);
        return Raised(next.error);
      }
      num := next.value;
    }
    assert hextets[..|hextets|] == hextets;
    var ret := ReadInt(num, Hex, true);
    return if ret == None then Raised(BadNumeral) else Ok(Parsed(ret.value, 6));
  }

  /** One round of the loop over the hextets. */
  method NextHextet(num: string, hextet: string) returns (r: Result<string, AddressError>)
    ensures r == AddHextet(num, hextet)
  {
    var x := hextet;
    if |x| < 4 {
      x := Zeros(4 - |x|) + x;
    }
    var n := ReadInt(x, Hex, false);
    if n == None {
      return Raised(BadNumeral);
    }
    if n.value < 0 || n.value > 0xFFFF {
      return Raised(HextetOutOfRange);
    }
    return Ok(num + x);
  }

  /** The first hextet that is refused decides the error. */
  lemma {:induction false} DigitsFail(parts: seq<string>, k: nat)
    requires k <= |parts|
    ensures HextetDigits(parts[..k]).Raised? ==> HextetDigits(parts) == HextetDigits(parts[..k])
    decreases |parts|
  {
    if k < |parts| {
      var front := parts[..|parts| - 1];
      assert front[..k] == parts[..k];
      DigitsFail(front, k);
    } else {
      assert parts[..k] == parts;
    }
  }

  // ---------------------------------------------------------------- intToIp

  /** Each number in decimal, followed by a dot. */
  ghost function DotEach(g: seq<nat>): string {
    if g == [] then "" else DotEach(g[..|g| - 1]) + Numeral(g[|g| - 1], Decimal) + "."
  }

  lemma {:induction false} DotEachJoin(g: seq<nat>)
    requires g != []
    ensures DotEach(g) == Join(Texts(g, Decimal), '.') + "."
  {
    var n := |g| - 1;
    var t := Texts(g, Decimal);
    if n > 0 {
      DotEachJoin(g[..n]);
      assert t[..n] == Texts(g[..n], Decimal);
      assert t == t[..n] + [t[n]];
      JoinAppend(t[..n], [t[n]], '.');
    } else {
      assert g[..n] == [] && DotEach(g[..n]) == "";
      assert t == [t[0]];
    }
  }

  /** Each part with a colon in front. */
  ghost function ColonEach(parts: seq<string>): string {
    if parts == [] then "" else ":" + parts[0] + ColonEach(parts[1..])
  }

  lemma {:induction false} ColonEachJoin(parts: seq<string>)
    requires parts != []
    ensures ColonEach(parts) == ":" + Join(parts, ':')
  {
    if |parts| > 1 {
      ColonEachJoin(parts[1..]);
    }
  }

  method IntToIp(ip: int, version: int) returns (r: Result<string, AddressError>)
    ensures r == Print(ip, version)
  {
    if ip < 0 {
      return Raised(NegativeAddress);
    }
    var ret := "";
    if version == 4 {
      if ip > 0xFFFF_FFFF {
        return Raised(AddressTooBig);
      }
      ret := PrintBytes(ip);
    } else if version == 6 {
      if ip > MAX6 {
        return Raised(AddressTooBig);
      }
      ret := PrintHextets(ip);
    } else {
      return Raised(UnknownVersion);
    }
    return Ok(ret);
  }

  /** The version 4 branch: four bytes from the right, a dot after each. */
  method PrintBytes(ip0: nat) returns (ret: string)
    ensures ret == Dotted(ip0)
  {
    var ip := ip0;
    ret := "";
    for l := 0 to 4
      invariant DotEach(GroupsOf(Octet, ip, 4 - l)) + ret == DotEach(GroupsOf(Octet, ip0, 4))
    {
      DotEachLast(ip, 4 - l, ret);
      ret := Numeral(ip % 256, Decimal) + "." + ret;
      ip := ip / 256;
    }
    DotEachJoin(GroupsOf(Octet, ip0, 4));
    assert DotEach(GroupsOf(Octet, ip, 0)) + ret == ret;
    ret := ret[..|ret| - 1];
  }

  lemma DotEachLast(v: nat, n: nat, rest: string)
    requires n > 0
    ensures DotEach(GroupsOf(Octet, v, n)) + rest
         == DotEach(GroupsOf(Octet, v / 256, n - 1)) + (Numeral(v % 256, Decimal) + "." + rest)
  {
    GroupsLast(Octet, v, n);
  }

  /** The version 6 branch: 32 digits from the right, a colon before every fourth. */
  method PrintHextets(ip: nat) returns (ret: string)
    requires ip <= MAX6
    ensures ret == Full(ip)
  {
    var l := Zeros(32) + Numeral(ip, Hex);
    ghost var parts := FullTexts(GroupsOf(Hextet, ip, 8));
    PaddedDigits(ip, l, parts);
    ret := EveryFourth(l, parts);
    ColonEachJoin(parts);
    ret := ret[1..];
  }

  method EveryFourth(l: string, ghost parts: seq<string>) returns (ret: string)
    requires |l| >= 32 && FourEach(parts)
    requires l[|l| - 32..] == Concat(parts)
    ensures ret == ColonEach(parts)
  {
    ret := "";
    for x := 1 to 33
      invariant ret == LastDigits(parts, x - 1)
    {
      LastDigitsStep(parts, x);
      FromEnd(l, Concat(parts), x);
      ret := [l[|l| - x]] + ret;
      if x % 4 == 0 {
        ret := ":" + ret;
      }
    }
    AllDigitsDone(parts);
  }

  lemma FromEnd(l: string, digits: string, x: nat)
    requires 1 <= x <= 32 <= |l| && digits == l[|l| - 32..]
    ensures l[|l| - x] == digits[32 - x]
  {
  }

  ghost predicate FourEach(parts: seq<string>)
    ensures FourEach(parts) ==> |Concat(parts)| == 32
  {
    && |parts| == 8
    && (forall i :: 0 <= i < |parts| ==> |parts[i]| == 4)
    && (ConcatAt(parts, 0, 0); true)
  }

  /** The last x digits of eight four-digit parts, with a colon before each full part. */
  ghost function LastDigits(parts: seq<string>, x: nat): string
    requires FourEach(parts) && x <= 32
  {
    DigitsFrom(parts, x / 4, x % 4)
  }

  /** The last m digits of a part, and the q parts behind it. */
  ghost function DigitsFrom(parts: seq<string>, q: nat, m: nat): string
    requires FourEach(parts) && q <= 8 && m < 4 && (q == 8 ==> m == 0)
  {
    (if m == 0 then "" else parts[7 - q][4 - m..]) + ColonEach(parts[8 - q..])
  }

  lemma AllDigitsDone(parts: seq<string>)
    requires FourEach(parts)
    ensures LastDigits(parts, 32) == ColonEach(parts)
  {
    assert DigitsFrom(parts, 8, 0) == "" + ColonEach(parts[0..]);
    assert parts[0..] == parts;
  }

  lemma LastDigitsStep(parts: seq<string>, x: nat)
    requires FourEach(parts) && 1 <= x <= 32
    ensures x % 4 != 0 ==> LastDigits(parts, x) == [Concat(parts)[32 - x]] + LastDigits(parts, x - 1)
    ensures x % 4 == 0 ==> LastDigits(parts, x) == ":" + ([Concat(parts)[32 - x]] + LastDigits(parts, x - 1))
  {
    var q, m := (x - 1) / 4, (x - 1) % 4;
    DigitIndex(parts, x);
    if m < 3 {
      assert x / 4 == q && x % 4 == m + 1;
      DigitInPart(parts, q, m);
    } else {
      assert x / 4 == q + 1 && x % 4 == 0;
      DigitFirst(parts, q);
    }
  }

  lemma DigitInPart(parts: seq<string>, q: nat, m: nat)
    requires FourEach(parts) && q < 8 && m < 3
    ensures DigitsFrom(parts, q, m + 1) == [parts[7 - q][3 - m]] + DigitsFrom(parts, q, m)
  {
    var p := parts[7 - q];
    assert |p| == 4;
    FirstFrom(p, 3 - m, ColonEach(parts[8 - q..]));
    assert m == 0 ==> p[4..] == "";
  }

  lemma DigitFirst(parts: seq<string>, q: nat)
    requires FourEach(parts) && q < 8
    ensures DigitsFrom(parts, q + 1, 0) == ":" + ([parts[7 - q][0]] + DigitsFrom(parts, q, 3))
  {
    var p := parts[7 - q];
    assert |p| == 4;
    FirstFrom(p, 0, ColonEach(parts[8 - q..]));
    assert parts[7 - q..] == [p] + parts[8 - q..];
    assert ColonEach(parts[7 - q..]) == ":" + p + ColonEach(parts[8 - q..]);
  }

  lemma DigitIndex(parts: seq<string>, x: nat)
    requires FourEach(parts) && 1 <= x <= 32
    ensures Concat(parts)[32 - x] == parts[7 - (x - 1) / 4][3 - (x - 1) % 4]
  {
    var i, j := 7 - (x - 1) / 4, 3 - (x - 1) % 4;
    assert 4 * i + j == 32 - x;
    ConcatAt(parts, i, j);
  }

  lemma FirstFrom(p: string, k: nat, after: string)
    requires k < |p|
    ensures p[k..] + after == [p[k]] + (p[k + 1..] + after)
    ensures k == 0 ==> p[k..] == p
    ensures k + 1 == |p| ==> p[k + 1..] + after == after
  {
  }

  lemma PaddedDigits(ip: nat, l: string, parts: seq<string>)
    requires ip <= MAX6 && l == Zeros(32) + Numeral(ip, Hex)
    requires parts == FullTexts(GroupsOf(Hextet, ip, 8))
    ensures |l| >= 32 && FourEach(parts)
    ensures l[|l| - 32..] == Concat(parts)
  {
    var n := Numeral(ip, Hex);
    Power32();
    PadNumeral(ip, Hex, 32);
    NumeralGroups(ip, 8);
    assert l[|n|..] == Zeros(32 - |n|) + n;
  }

  lemma Power32()
    ensures Power(Hex, 32) == MAX6 + 1
  {
    Power4();
    assert Power(Hex, 8) == 0x1_0000_0000;
    assert Power(Hex, 12) == 0x1_0000_0000_0000;
    assert Power(Hex, 16) == 0x1_0000_0000_0000_0000;
    assert Power(Hex, 20) == 0x1_0000_0000_0000_0000_0000;
    assert Power(Hex, 24) == 0x1_0000_0000_0000_0000_0000_0000;
    assert Power(Hex, 28) == 0x1_0000_0000_0000_0000_0000_0000_0000;
  }
}
