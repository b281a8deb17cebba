/** The string operations of Python 2 that the address code is written with:
    splitting and joining at one character, printing a number in a base, and
    reading a numeral with `int` and `long`. */
module PyText {
  import opened Prelude

  // ---------------------------------------------------------------- joining

  /** `sep.join(parts)` */
  function Join(parts: seq<string>, sep: char): string {
    if |parts| == 0 then ""
    else if |parts| == 1 then parts[0]
    else parts[0] + [sep] + Join(parts[1..], sep)
  }

  /** `s.split(sep)` */
  function Split(s: string, sep: char): (parts: seq<string>)
    ensures |parts| >= 1
  {
    if s == "" then [""]
    else
      var rest := Split(s[1..], sep);
      if s[0] == sep then [""] + rest else [[s[0]] + rest[0]] + rest[1..]
  }

  /** No part contains the separator. */
  ghost predicate Free(parts: seq<string>, c: char) {
    forall p :: p in parts ==> c !in p
  }

  lemma {:induction false} SplitHead(p: string, rest: string, sep: char)
    requires sep !in p
    ensures Split(p, sep) == [p]
    ensures Split(p + [sep] + rest, sep) == [p] + Split(rest, sep)
  {
    if p == "" {
      assert (p + [sep] + rest)[1..] == rest;
    } else {
      SplitHead(p[1..], rest, sep);
      var whole := p + [sep] + rest;
      assert whole[1..] == p[1..] + [sep] + rest;
      assert [p[0]] + p[1..] == p;
    }
  }

  /** Splitting undoes joining when no part contains the separator. */
  lemma {:induction false} SplitJoin(parts: seq<string>, sep: char)
    requires |parts| >= 1 && Free(parts, sep)
    ensures Split(Join(parts, sep), sep) == parts
  {
    assert sep !in parts[0];
    if |parts| == 1 {
      SplitHead(parts[0], "", sep);
    } else {
      SplitHead(parts[0], Join(parts[1..], sep), sep);
      SplitJoin(parts[1..], sep);
      assert [parts[0]] + parts[1..] == parts;
    }
  }

  /** No part of a split contains the separator, and parts are no longer than the text. */
  lemma {:induction false} SplitFree(s: string, sep: char)
    ensures Free(Split(s, sep), sep)
    ensures forall p :: p in Split(s, sep) ==> |p| + |Split(s, sep)| <= |s| + 1
    ensures sep !in s ==> Split(s, sep) == [s]
    ensures sep in s ==> |Split(s, sep)| >= 2
  {
    if s != "" {
      SplitFree(s[1..], sep);
      var rest := Split(s[1..], sep);
      if s[0] != sep {
        assert forall p :: p in rest[1..] ==> p in rest;
        assert rest[0] in rest;
        assert s == [s[0]] + s[1..];
      }
    }
  }

  lemma {:induction false} JoinAppend(a: seq<string>, b: seq<string>, sep: char)
    requires |a| >= 1 && |b| >= 1
    ensures Join(a + b, sep) == Join(a, sep) + [sep] + Join(b, sep)
  {
    if |a| == 1 {
      assert (a + b)[1..] == b;
    } else {
      assert (a + b)[1..] == a[1..] + b;
      JoinAppend(a[1..], b, sep);
    }
  }

  /** A joined text contains only its separator and the characters of its parts. */
  lemma {:induction false} JoinFree(parts: seq<string>, sep: char, c: char)
    requires c != sep && Free(parts, c)
    ensures c !in Join(parts, sep)
  {
    if |parts| > 1 {
      JoinFree(parts[1..], sep, c);
    }
  }

  lemma {:induction false} JoinHasSep(parts: seq<string>, sep: char)
    requires |parts| >= 2
    ensures sep in Join(parts, sep)
  {
    var j := Join(parts, sep);
    assert j[|parts[0]|] == sep;
  }

  // ---------------------------------------------------------------- numerals

  /** The two bases in use. */
  datatype Base = Decimal | Hex

  function Radix(b: Base): nat {
    if b == Decimal then 10 else 16
  }

  function Scale(b: Base, n: nat): nat {
    if b == Decimal then 10 * n else 16 * n
  }

  function Quotient(b: Base, n: nat): (q: nat)
    ensures n >= Radix(b) ==> q < n
  {
    if b == Decimal then n / 10 else n / 16
  }

  function LastDigit(b: Base, n: nat): (d: nat)
    ensures d < Radix(b) && n == Scale(b, Quotient(b, n)) + d
  {
    if b == Decimal then n % 10 else n % 16
  }

  /** Radix(b) to the power k. */
  function Power(b: Base, k: nat): (p: nat)
    ensures p > 0
  {
    if k == 0 then 1 else Scale(b, Power(b, k - 1))
  }

  /** The value of a character as a digit, or 99 when it is not one. */
  function DigitOf(c: char): nat {
    if '0' <= c <= '9' then (c as int) - 48
    else if 'a' <= c <= 'z' then (c as int) - 87
    else if 'A' <= c <= 'Z' then (c as int) - 55
    else 99
  }

  function DigitChar(d: nat): (c: char)
    requires d < 16
    ensures DigitOf(c) == d
  {
    if d < 10 then (48 + d) as char else (87 + d) as char
  }

  predicate AllDigits(s: string, b: Base) {
    forall i :: 0 <= i < |s| ==> DigitOf(s[i]) < Radix(b)
  }

  /** The number that a string of digits denotes. */
  function DigitsValue(s: string, b: Base): nat {
    if s == "" then 0
    else Scale(b, DigitsValue(s[..|s| - 1], b)) + DigitOf(s[|s| - 1])
  }

  /** Digits of `n`, most significant first, without leading zeros
      (`str(n)` in decimal, the part after `0x` of `hex(n)` in hexadecimal). */
  function Numeral(n: nat, b: Base): (s: string)
    ensures |s| >= 1 && AllDigits(s, b)
  {
    if n < Radix(b) then [DigitChar(n)]
    else Numeral(Quotient(b, n), b) + [DigitChar(LastDigit(b, n))]
  }

  /** `str(n)` */
  function IntText(n: int): string {
    if n < 0 then "-" + Numeral(-n, Decimal) else Numeral(n, Decimal)
  }

  /** Exactly `width` digits of `n`, leading zeros included. */
  function FixedDigits(n: nat, b: Base, width: nat): (s: string)
    ensures |s| == width && AllDigits(s, b)
  {
    if width == 0 then ""
    else FixedDigits(Quotient(b, n), b, width - 1) + [DigitChar(LastDigit(b, n))]
  }

  function Zeros(k: nat): (s: string)
    ensures |s| == k && forall i :: 0 <= i < k ==> s[i] == '0'
  {
    seq(k, _ => '0')
  }

  lemma {:induction false} NumeralValue(n: nat, b: Base)
    ensures DigitsValue(Numeral(n, b), b) == n
  {
    var s := Numeral(n, b);
    if n >= Radix(b) {
      NumeralValue(Quotient(b, n), b);
      assert s[..|s| - 1] == Numeral(Quotient(b, n), b);
    } else {
      assert s[..0] == "";
    }
  }

  lemma {:induction false} FixedDigitsValue(n: nat, b: Base, width: nat)
    requires n < Power(b, width)
    ensures DigitsValue(FixedDigits(n, b, width), b) == n
  {
    if width > 0 {
      var s := FixedDigits(n, b, width);
      assert s[..width - 1] == FixedDigits(Quotient(b, n), b, width - 1);
      FixedDigitsValue(Quotient(b, n), b, width - 1);
    }
  }

  /** Padding a short numeral with zeros gives its fixed-width form. */
  lemma {:induction false} PadNumeral(n: nat, b: Base, width: nat)
    requires n < Power(b, width) && width >= 1
    ensures |Numeral(n, b)| <= width
    ensures Zeros(width - |Numeral(n, b)|) + Numeral(n, b) == FixedDigits(n, b, width)
  {
    if n < Radix(b) {
      FixedZero(b, width - 1);
    } else {
      PadBound(n, b, width);
      PadNumeral(Quotient(b, n), b, width - 1);
      PadLast(Numeral(Quotient(b, n), b), DigitChar(LastDigit(b, n)), width - 1);
    }
  }

  lemma PadBound(n: nat, b: Base, width: nat)
    requires Radix(b) <= n < Power(b, width) && width >= 1
    ensures width >= 2 && Quotient(b, n) < Power(b, width - 1)
  {
  }

  lemma PadLast(t: string, c: char, width: nat)
    requires |t| <= width
    ensures Zeros(width + 1 - |t + [c]|) + (t + [c]) == (Zeros(width - |t|) + t) + [c]
  {
  }

  lemma {:induction false} FixedZero(b: Base, width: nat)
    ensures FixedDigits(0, b, width) == Zeros(width)
  {
    if width > 0 {
      FixedZero(b, width - 1);
      assert Zeros(width - 1) + ['0'] == Zeros(width);
    }
  }

  lemma {:induction false} DigitsValueAppend(s: string, t: string, b: Base)
    ensures DigitsValue(s + t, b) == DigitsValue(s, b) * Power(b, |t|) + DigitsValue(t, b)
  {
    if t == "" {
      assert s + t == s;
    } else {
      var t' := t[..|t| - 1];
      assert (s + t)[..|s + t| - 1] == s + t';
      DigitsValueAppend(s, t', b);
      ScaleProduct(b, DigitsValue(s, b), Power(b, |t'|), DigitsValue(t', b));
    }
  }

  lemma {:induction false} ZerosValue(k: nat, b: Base)
    ensures DigitsValue(Zeros(k), b) == 0
  {
    if k > 0 {
      assert Zeros(k)[..k - 1] == Zeros(k - 1);
      ZerosValue(k - 1, b);
    }
  }

  /** Zeros in front do not change the value. */
  lemma PaddedValue(k: nat, s: string, b: Base)
    ensures DigitsValue(Zeros(k) + s, b) == DigitsValue(s, b)
  {
    DigitsValueAppend(Zeros(k), s, b);
    ZerosValue(k, b);
  }

  lemma ScaleProduct(b: Base, v: nat, p: nat, x: nat)
    ensures v * p >= 0
    ensures Scale(b, v * p + x) == v * Scale(b, p) + Scale(b, x)
  {
  }

  // ---------------------------------------------------------------- int and long

  predicate IsSpace(c: char) {
    c == ' ' || '\t' <= c <= '\r'
  }

  /** `s.strip()` */
  function Strip(s: string): string {
    if s == "" then ""
    else if IsSpace(s[0]) then Strip(s[1..])
    else if IsSpace(s[|s| - 1]) then Strip(s[..|s| - 1])
    else s
  }

  /** Stripping removes blanks only, and adds nothing. */
  lemma {:induction false} StripKeeps(s: string, c: char)
    ensures c in Strip(s) ==> c in s
    ensures c in s && !IsSpace(c) ==> c in Strip(s)
    decreases |s|
  {
    if s != "" {
      var n := |s| - 1;
      if IsSpace(s[0]) {
        StripKeeps(s[1..], c);
        assert s == [s[0]] + s[1..];
      } else if IsSpace(s[n]) {
        StripKeeps(s[..n], c);
        assert s == s[..n] + [s[n]];
      }
    }
  }

  /** `int(s, base)`, and `long(s, base)` when `longSuffix` is set. None is a
      ValueError. */
  function ReadInt(s: string, b: Base, longSuffix: bool): Option<int> {
    var t := Strip(s);
    match ReadUnsigned(DropSign(t), b, longSuffix)
    case None => None
    case Some(n) =>
      var m: int := n;
      Some(if t != "" && t[0] == '-' then -m else m)
  }

  function ReadUnsigned(u: string, b: Base, longSuffix: bool): Option<nat> {
    var w := DropSuffix(DropPrefix(u, b), longSuffix);
    if w == "" || !AllDigits(w, b) then None else Some(DigitsValue(w, b))
  }

  function DropSign(t: string): string {
    if t != "" && (t[0] == '-' || t[0] == '+') then t[1..] else t
  }

  /** 0x may stand in front of hexadecimal digits. */
  function DropPrefix(u: string, b: Base): string {
    if b == Hex && |u| >= 2 && u[0] == '0' && (u[1] == 'x' || u[1] == 'X') then u[2..] else u
  }

  /** L may stand behind the digits of a long. */
  function DropSuffix(v: string, longSuffix: bool): string {
    if longSuffix && v != "" && (v[|v| - 1] == 'l' || v[|v| - 1] == 'L') then v[..|v| - 1] else v
  }

  /** A numeral with a sign. */
  lemma SignedNumeral(n: nat, b: Base, longSuffix: bool)
    ensures var m: int := n;
            ReadInt("-" + Numeral(n, b), b, longSuffix) == Some(-m) && ReadInt("+" + Numeral(n, b), b, longSuffix) == Some(m)
  {
    var s := Numeral(n, b);
    NumeralValue(n, b);
    PlainDigits(s, b);
    SignedDigits('-', s, b);
    SignedDigits('+', s, b);
  }

  /** A long may have an L behind it, an int may not. */
  lemma LongNumeral(n: nat, b: Base)
    ensures ReadInt(Numeral(n, b) + "L", b, true) == Some(n) && ReadInt(Numeral(n, b) + "L", b, false) == None
  {
    var s := Numeral(n, b);
    NumeralValue(n, b);
    SuffixedDigits(s, b);
  }

  /** Hexadecimal digits may have 0x in front of them, decimal ones may not. */
  lemma PrefixedNumeral(n: nat, b: Base)
    ensures ReadInt("0x" + Numeral(n, b), b, true) == if b == Hex then Some(n) else None
  {
    var s := Numeral(n, b);
    NumeralValue(n, b);
    PrefixedDigits(s, b);
  }

  lemma PlainDigits(s: string, b: Base)
    requires s != "" && AllDigits(s, b)
    ensures forall longSuffix :: DropSuffix(DropPrefix(s, b), longSuffix) == s
  {
    assert DigitOf(s[|s| - 1]) < Radix(b);
    assert |s| >= 2 ==> DigitOf(s[1]) < Radix(b);
  }

  lemma SignedDigits(c: char, s: string, b: Base)
    requires s != "" && AllDigits(s, b) && (c == '-' || c == '+')
    ensures Strip([c] + s) == [c] + s && DropSign([c] + s) == s
  {
    assert DigitOf(s[|s| - 1]) < Radix(b);
    assert ([c] + s)[|s|] == s[|s| - 1] && ([c] + s)[1..] == s;
  }

  lemma SuffixedDigits(s: string, b: Base)
    requires s != "" && AllDigits(s, b)
    ensures Strip(s + "L") == s + "L" && DropSign(s + "L") == s + "L" && DropPrefix(s + "L", b) == s + "L"
    ensures DropSuffix(s + "L", true) == s && !AllDigits(s + "L", b)
  {
    var t := s + "L";
    assert DigitOf(s[0]) < Radix(b) && t[0] == s[0] && t[|s|] == 'L' && DigitOf('L') == 21;
    assert |s| >= 2 ==> DigitOf(s[1]) < Radix(b);
    assert t[..|s|] == s;
  }

  lemma PrefixedDigits(s: string, b: Base)
    requires s != "" && AllDigits(s, b)
    ensures Strip("0x" + s) == "0x" + s && DropSign("0x" + s) == "0x" + s
    ensures b == Hex ==> DropSuffix(DropPrefix("0x" + s, b), true) == s
    ensures b == Decimal ==> DropSuffix(DropPrefix("0x" + s, b), true) == "0x" + s && !AllDigits("0x" + s, b)
  {
    var t := "0x" + s;
    assert DigitOf(s[|s| - 1]) < Radix(b);
    assert t[|s| + 1] == s[|s| - 1] && t[2..] == s && t[1] == 'x' && DigitOf('x') == 33;
  }

  /** Blanks in front of a text and behind it do not matter. */
  lemma {:induction false} BlanksAround(s: string, b: Base, longSuffix: bool)
    ensures ReadInt(" " + s, b, longSuffix) == ReadInt(s, b, longSuffix)
    ensures ReadInt(s + " ", b, longSuffix) == ReadInt(s, b, longSuffix)
  {
    assert (" " + s)[1..] == s;
    BlankBehind(s);
  }

  lemma {:induction false} BlankBehind(s: string)
    ensures Strip(s + " ") == Strip(s)
    decreases |s|
  {
    var t := s + " ";
    if s == "" {
      assert t[1..] == "";
    } else if IsSpace(s[0]) {
      assert t[1..] == s[1..] + " ";
      BlankBehind(s[1..]);
    } else {
      assert t[..|t| - 1] == s;
    }
  }

  /** A plain digit string is read as its value. */
  lemma ReadDigits(s: string, b: Base, longSuffix: bool)
    requires s != "" && AllDigits(s, b)
    ensures ReadInt(s, b, longSuffix) == Some(DigitsValue(s, b))
  {
    var n := |s| - 1;
    assert DigitOf(s[0]) < Radix(b) && DigitOf(s[n]) < Radix(b);
    assert !IsSpace(s[0]) && !IsSpace(s[n]) && Strip(s) == s;
    if |s| >= 2 {
      assert DigitOf(s[1]) < Radix(b);
    }
  }

  /** Reading back a printed number. */
  lemma ReadNumeral(n: nat, b: Base, longSuffix: bool)
    ensures ReadInt(Numeral(n, b), b, longSuffix) == Some(n)
  {
    NumeralValue(n, b);
    ReadDigits(Numeral(n, b), b, longSuffix);
  }

  /** Characters that are not digits of the base do not occur in a digit string. */
  lemma DigitsFree(s: string, b: Base, c: char)
    requires AllDigits(s, b) && DigitOf(c) >= Radix(b)
    ensures c !in s
  {
  }
}
