/** What the parser of addresses refuses, and what it makes of digit strings. */
module Refusals {
  import opened Prelude
  import opened PyText
  import opened Groups
  import opened Notation
  import opened Compressed

  // ---------------------------------------------------------------- numbers

  /** A hexadecimal number behind 0x is accepted exactly if it has at most 128 bits. */
  lemma HexNumber(n: nat)
    ensures Parse("0x" + Numeral(n, Hex)) == if n <= MAX6 then Ok(Parsed(n, GuessVersion(n))) else Raised(AddressTooBig)
  {
    assert ("0x" + Numeral(n, Hex))[2..] == Numeral(n, Hex);
    ReadNumeral(n, Hex, true);
  }

  /** A string of decimal digits: 32 of them are hexadecimal, up to three for a number below
      256 are a first byte, and the others a number of at most 128 bits. */
  lemma DigitString(s: string)
    requires s != "" && AllDigits(s, Decimal)
    ensures var v := DigitsValue(s, Decimal);
            Parse(s) == if |s| == 32 then Ok(Parsed(DigitsValue(s, Hex), 6))
                        else if |s| <= 3 && v < 256 then Ok(Parsed(0x100_0000 * v, 4))
                        else if v > MAX6 then Raised(AddressTooBig)
                        else Ok(Parsed(v, GuessVersion(v)))
  {
    DigitsFree(s, Decimal, 'x');
    DigitsFree(s, Decimal, ':');
    DigitsFree(s, Decimal, '.');
    No0x(s);
    ReadDigits(s, Decimal, true);
    ReadDigits(s, Decimal, false);
    if |s| == 32 {
      DecimalIsHex(s);
      ReadDigits(s, Hex, true);
    } else if |s| <= 3 && DigitsValue(s, Decimal) < 256 {
      OneByte(s);
    }
  }

  lemma DecimalIsHex(s: string)
    requires AllDigits(s, Decimal)
    ensures AllDigits(s, Hex)
  {
  }

  lemma OneByte(s: string)
    requires s != "" && AllDigits(s, Decimal) && DigitsValue(s, Decimal) < 256
    ensures ReadDotted(s) == Ok(Parsed(0x100_0000 * DigitsValue(s, Decimal), 4))
  {
    var v := DigitsValue(s, Decimal);
    AloneInSplit(s);
    ReadDigits(s, Decimal, true);
    ByteAndZeros(s, v, [v, 0, 0, 0]);
    PackFirst(v);
  }

  lemma AloneInSplit(s: string)
    requires AllDigits(s, Decimal)
    ensures Split(s, '.') == [s]
  {
    DigitsFree(s, Decimal, '.');
    SplitFree(s, '.');
  }

  lemma ByteAndZeros(s: string, v: nat, values: seq<int>)
    requires Split(s, '.') == [s] && ReadInt(s, Decimal, true) == Some(v) && values == [v, 0, 0, 0]
    ensures ReadDotted(s) == PackBytes(values)
  {
    ReadsByte(s, v);
    ZeroByte();
    MapAllValues(ReadByte, [s] + ZeroParts(3), values);
  }

  lemma ReadsByte(s: string, v: int)
    requires ReadInt(s, Decimal, true) == Some(v)
    ensures ReadByte(s) == Some(v)
  {
  }

  lemma ZeroByte()
    ensures ReadByte("0") == Some(0)
  {
    assert Numeral(0, Decimal) == "0";
    ReadNumeral(0, Decimal, true);
  }

  // ---------------------------------------------------------------- dotted texts

  /** Numbers separated by dots are an IPv4 address exactly if they are at most four bytes. */
  lemma DottedNumbers(g: seq<nat>)
    requires |g| >= 2
    ensures Parse(Join(Texts(g, Decimal), '.')).Ok? <==> |g| <= 4 && forall i :: 0 <= i < |g| ==> g[i] <= 255
  {
    var s := Join(Texts(g, Decimal), '.');
    DotsShape(g);
    if |s| == 32 {
      Unreadable(s, Hex, true, '.');
      TooLong(g, s);
    } else {
      DottedForm(s);
      if |g| <= 4 {
        var full := g + seq(4 - |g|, _ => 0);
        ReadPadded(s, g, full);
        Packs(g, full);
      }
    }
  }

  lemma DotsShape(g: seq<nat>)
    requires |g| >= 2
    ensures var s := Join(Texts(g, Decimal), '.');
            !Is0x(s) && ':' !in s && '.' in s && Split(s, '.') == Texts(g, Decimal)
  {
    var t := Texts(g, Decimal);
    TextsFree(g, Decimal, '.');
    TextsFree(g, Decimal, ':');
    TextsFree(g, Decimal, 'x');
    JoinFree(t, '.', ':');
    JoinFree(t, '.', 'x');
    No0x(Join(t, '.'));
    JoinHasSep(t, '.');
    SplitJoin(t, '.');
  }

  lemma Packs(g: seq<nat>, full: seq<nat>)
    requires Completes(full, g)
    ensures PackBytes(full).Ok? <==> forall i :: 0 <= i < |g| ==> g[i] <= 255
  {
    assert forall i :: 0 <= i < |g| ==> full[i] == full[..|g|][i] == g[i];
  }

  /** Four bytes are not 32 characters long. */
  lemma TooLong(g: seq<nat>, s: string)
    requires |g| >= 2 && s == Join(Texts(g, Decimal), '.') && |s| == 32
    ensures !(|g| <= 4 && forall i :: 0 <= i < |g| ==> g[i] <= 255)
  {
    if |g| <= 4 && forall i :: 0 <= i < |g| ==> g[i] <= 255 {
      PartialShape(g);
    }
  }

  /** A character that is no part of a numeral. */
  lemma Unreadable(s: string, b: Base, longSuffix: bool, c: char)
    requires c in s && (c == ':' || c == '.' || c == '/')
    ensures ReadInt(s, b, longSuffix) == None
  {
    StripKeeps(s, c);
    PartsKeep(DropSign(Strip(s)), b, longSuffix, c);
    StillIn(Strip(s), c);
  }

  lemma PartsKeep(u: string, b: Base, longSuffix: bool, c: char)
    requires c in u && (c == ':' || c == '.' || c == '/')
    ensures ReadUnsigned(u, b, longSuffix) == None
  {
    PrefixKeeps(u, b, c);
    SuffixKeeps(DropPrefix(u, b), longSuffix, c);
    NotDigits(DropSuffix(DropPrefix(u, b), longSuffix), b, c);
  }

  lemma PrefixKeeps(u: string, b: Base, c: char)
    requires c in u && c != '0' && c != 'x' && c != 'X'
    ensures c in DropPrefix(u, b)
  {
    if |u| >= 2 {
      StillIn(u, c);
      StillIn(u[1..], c);
      assert u[1..][1..] == u[2..];
    }
  }

  lemma SuffixKeeps(v: string, longSuffix: bool, c: char)
    requires c in v && c != 'l' && c != 'L'
    ensures c in DropSuffix(v, longSuffix)
  {
    StillIn(v, c);
  }

  lemma NotDigits(w: string, b: Base, c: char)
    requires c in w && DigitOf(c) == 99
    ensures !AllDigits(w, b)
  {
  }

  lemma StillIn(t: string, c: char)
    ensures c in t && t[0] != c ==> c in t[1..]
    ensures c in t && t[|t| - 1] != c ==> c in t[..|t| - 1]
  {
    if c in t {
      assert t == [t[0]] + t[1..] == t[..|t| - 1] + [t[|t| - 1]];
    }
  }

  // ---------------------------------------------------------------- colons

  /** No text with three colons in a row is accepted. */
  lemma TripleColonRefused(s: string, i: nat)
    requires i + 2 < |s| && s[i] == ':' && s[i + 1] == ':' && s[i + 2] == ':'
    ensures Parse(s).Raised?
  {
    if Is0x(s) {
      assert s[i] == s[2..][i - 2];
      Unreadable(s[2..], Hex, true, ':');
    }
  }

  /** Without '::' exactly eight hextets are accepted. */
  lemma WrongCountRefused(parts: seq<string>, g: seq<nat>)
    requires AllSpell(parts, g) && |g| >= 2 && |g| != 8
    ensures Parse(Join(parts, ':')) == Raised(if |g| < 8 then TooFewHextets else TooManyHextets)
  {
    SpelledText(parts, g);
    SpelledNonempty(parts, g);
  }

  /** Eight strings of hexadecimal digits are accepted exactly if none exceeds 16 bits. */
  lemma HextetsInRange(parts: seq<string>)
    requires |parts| == 8 && forall i :: 0 <= i < |parts| ==> parts[i] != "" && AllDigits(parts[i], Hex)
    ensures Parse(Join(parts, ':')).Ok? <==> forall i :: 0 <= i < |parts| ==> DigitsValue(parts[i], Hex) <= 0xFFFF
  {
    HexText(parts);
    assert Parse(Join(parts, ':')) == ReadHextets(parts);
    if i :| 0 <= i < |parts| && DigitsValue(parts[i], Hex) > 0xFFFF {
      LargeHextet(parts, i);
    } else {
      var g := seq(8, i requires 0 <= i < 8 => DigitsValue(parts[i], Hex));
      assert AllSpell(parts, g);
      LongHextetsShift(parts, g);
    }
  }

  lemma HexText(parts: seq<string>)
    requires |parts| >= 2 && forall i :: 0 <= i < |parts| ==> parts[i] != "" && AllDigits(parts[i], Hex)
    ensures var s := Join(parts, ':');
            && "" !in parts && !Is0x(s) && ':' in s && '.' !in s && !HasTripleColon(s) && Split(s, ':') == parts
  {
    forall c, p | (c == ':' || c == '.' || c == 'x') && p in parts ensures c !in p {
      DigitsFree(p, Hex, c);
    }
    JoinFree(parts, ':', '.');
    JoinFree(parts, ':', 'x');
    JoinHasSep(parts, ':');
    JoinTight(parts);
    SplitJoin(parts, ':');
    No0x(Join(parts, ':'));
  }

  lemma {:induction false} LargeHextet(parts: seq<string>, i: nat)
    requires i < |parts| && parts[i] != "" && AllDigits(parts[i], Hex) && DigitsValue(parts[i], Hex) > 0xFFFF
    ensures HextetDigits(parts).Raised?
  {
    var n := |parts| - 1;
    if i < n {
      LargeHextet(parts[..n], i);
    } else {
      LargeRefused(parts[n]);
    }
  }

  lemma LargeRefused(x: string)
    requires x != "" && AllDigits(x, Hex) && DigitsValue(x, Hex) > 0xFFFF
    ensures forall num :: AddHextet(num, x).Raised?
  {
    PaddedDigitsOf(x);
    ReadDigits(Pad4(x), Hex, false);
  }

  lemma PaddedDigitsOf(x: string)
    requires AllDigits(x, Hex)
    ensures AllDigits(Pad4(x), Hex) && DigitsValue(Pad4(x), Hex) == DigitsValue(x, Hex)
    ensures x != "" ==> Pad4(x) != ""
  {
    if |x| < 4 {
      PaddedValue(4 - |x|, x, Hex);
    }
  }

  /** A second '::' is refused, whatever stands around the two. */
  lemma TwoGapsRefused(a: seq<string>, g: seq<nat>, b: seq<string>, h: seq<nat>, c: seq<string>, k: seq<nat>)
    requires AllSpell(a, g) && AllSpell(b, h) && AllSpell(c, k) && b != []
    ensures Parse(Join(a, ':') + "::" + Join(b, ':') + "::" + Join(c, ':')).Raised?
  {
    var parts := TwoGapParts(a, b, c);
    SideFacts(a, g);
    SideFacts(b, h);
    SideFacts(c, k);
    TwoGapText(a, b, c);
    TwoGapsRead(a, b, c);
  }

  function TwoGapParts(a: seq<string>, b: seq<string>, c: seq<string>): seq<string> {
    (if a == [] then [""] else a) + [""] + b + [""] + (if c == [] then [""] else c)
  }

  lemma TwoGapText(a: seq<string>, b: seq<string>, c: seq<string>)
    requires Side(a) && Side(b) && Side(c) && b != []
    requires '.' !in Join(a, ':') && '.' !in Join(b, ':') && '.' !in Join(c, ':')
    ensures var s := Join(a, ':') + "::" + Join(b, ':') + "::" + Join(c, ':');
            && !Is0x(s) && ':' in s && '.' !in s && Split(s, ':') == TwoGapParts(a, b, c)
  {
    var s := Join(a, ':') + "::" + Join(b, ':') + "::" + Join(c, ':');
    TwoGapJoin(a, b, c);
    assert Free(TwoGapParts(a, b, c), ':');
    SplitJoin(TwoGapParts(a, b, c), ':');
    assert s[|Join(a, ':')|] == ':';
    No0x(s);
  }

  lemma TwoGapJoin(a: seq<string>, b: seq<string>, c: seq<string>)
    requires b != []
    ensures Join(TwoGapParts(a, b, c), ':') == Join(a, ':') + "::" + Join(b, ':') + "::" + Join(c, ':')
  {
    var tail := b + [""] + (if c == [] then [""] else c);
    JoinGap(a, tail);
    assert TwoGapParts(a, b, c) == GapParts(a, tail);
    var right := if c == [] then [""] else c;
    assert Join(right, ':') == Join(c, ':');
    JoinAppend(b, [""] + right, ':');
    JoinAppend([""], right, ':');
    assert tail == b + ([""] + right);
    assert Join(tail, ':') == Join(b, ':') + "::" + Join(c, ':');
  }

  lemma TwoGapsRead(a: seq<string>, b: seq<string>, c: seq<string>)
    requires "" !in a && "" !in b && b != []
    ensures ReadParts(TwoGapParts(a, b, c)).Raised?
  {
    var parts := TwoGapParts(a, b, c);
    var right := if c == [] then [""] else c;
    assert parts[(if a == [] then 1 else |a|)] == "";
    if |parts| < 8 {
      GapStays(a, b + [""] + right, parts);
    }
  }

  /** Filling the first gap leaves the second. */
  lemma GapStays(a: seq<string>, tail: seq<string>, parts: seq<string>)
    requires "" !in a && "" in tail && tail[0] != "" && |parts| < 8
    requires parts == (if a == [] then [""] else a) + [""] + tail
    ensures "" in parts && "" in FillGap(parts)
  {
    assert parts[(if a == [] then 0 else |a|)] == "";
    MergedParts(a, tail, parts);
    GapBetween(a, tail);
    TailStays(a + ZeroParts(8 - |a| - |tail|), tail);
  }

  lemma MergedParts(a: seq<string>, tail: seq<string>, parts: seq<string>)
    requires "" !in a && tail != [] && tail[0] != "" && "" in parts
    requires parts == (if a == [] then [""] else a) + [""] + tail
    ensures MergeGap(MergeGap(parts)) == a + [""] + tail
  {
    if a == [] {
      assert parts == [] + ["", ""] + tail;
      MergeTwo([], tail);
    } else {
      MergeOne(a, tail);
    }
    MergeOne(a, tail);
  }

  lemma TailStays(front: seq<string>, tail: seq<string>)
    requires "" in tail
    ensures "" in front + tail
  {
    var i :| 0 <= i < |tail| && tail[i] == "";
    assert (front + tail)[|front| + i] == "";
  }

  // ---------------------------------------------------------------- mixed notation

  /** If a text has both separators, what follows the last colon has to be an IPv4 address. */
  lemma TailMustBeV4(front: string, last: string)
    requires ':' !in last && '.' in front + ":" + last
    ensures Parse(front + ":" + last).Ok? ==> Parse(last).Ok? && Parse(last).value.version == 4
  {
    var s := front + ":" + last;
    assert s[|front|] == ':';
    if Is0x(s) {
      assert s[2..][|front| - 2] == ':';
      Unreadable(s[2..], Hex, true, ':');
    } else {
      SplitLast(front, last, ':');
    }
  }

  lemma {:induction false} SplitLast(front: string, last: string, sep: char)
    requires sep !in last
    ensures Split(front + [sep] + last, sep) == Split(front, sep) + [last]
  {
    if front == "" {
      assert front + [sep] + last == "" + [sep] + last;
      SplitHead("", last, sep);
      SplitHead(last, "", sep);
    } else {
      assert (front + [sep] + last)[1..] == front[1..] + [sep] + last;
      SplitLast(front[1..], last, sep);
    }
  }
}
