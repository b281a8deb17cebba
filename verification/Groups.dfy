/** Numbers as lists of equal-sized groups, most significant first: the four bytes of
    an IPv4 address and the eight 16-bit groups of an IPv6 address. */
module Groups {
  import opened PyText

  datatype Width = Octet | Hextet

  function Size(w: Width): nat {
    if w == Octet then 256 else 65536
  }

  function Times(w: Width, n: int): int {
    if w == Octet then 256 * n else 65536 * n
  }

  function High(w: Width, v: nat): nat {
    if w == Octet then v / 256 else v / 65536
  }

  function Low(w: Width, v: nat): (d: nat)
    ensures d < Size(w) && v == Times(w, High(w, v)) + d
  {
    if w == Octet then v % 256 else v % 65536
  }

  /** One more than the largest number of n groups. */
  function Limit(w: Width, n: nat): (p: nat)
    ensures p > 0
  {
    if n == 0 then 1 else Times(w, Limit(w, n - 1))
  }

  ghost predicate InRange(w: Width, g: seq<nat>) {
    forall i :: 0 <= i < |g| ==> g[i] < Size(w)
  }

  function GroupsOf(w: Width, v: nat, n: nat): (g: seq<nat>)
    ensures |g| == n
    ensures forall i :: 0 <= i < |g| ==> g[i] < Size(w)
  {
    if n == 0 then [] else GroupsOf(w, High(w, v), n - 1) + [Low(w, v)]
  }

  function FromGroups(w: Width, g: seq<nat>): nat {
    if g == [] then 0 else Times(w, FromGroups(w, g[..|g| - 1])) + g[|g| - 1]
  }

  lemma {:induction false} FromGroupsOf(w: Width, v: nat, n: nat)
    requires v < Limit(w, n)
    ensures FromGroups(w, GroupsOf(w, v, n)) == v
  {
    if n > 0 {
      FromGroupsOf(w, High(w, v), n - 1);
      var g := GroupsOf(w, v, n);
      assert g[..n - 1] == GroupsOf(w, High(w, v), n - 1);
    }
  }

  lemma {:induction false} GroupsOfFrom(w: Width, g: seq<nat>)
    requires InRange(w, g)
    ensures FromGroups(w, g) < Limit(w, |g|)
    ensures GroupsOf(w, FromGroups(w, g), |g|) == g
  {
    if g != [] {
      var front, last := g[..|g| - 1], g[|g| - 1];
      GroupsOfFrom(w, front);
      assert g[|g| - 1] < Size(w);
      assert High(w, FromGroups(w, g)) == FromGroups(w, front) && Low(w, FromGroups(w, g)) == last;
      assert g == front + [last];
    }
  }

  // ---------------------------------------------------------------- group texts

  /** Each group as a numeral. */
  function Texts(g: seq<nat>, b: Base): (t: seq<string>)
    ensures |t| == |g|
    ensures forall i :: 0 <= i < |t| ==> t[i] == Numeral(g[i], b)
  {
    seq(|g|, i requires 0 <= i < |g| => Numeral(g[i], b))
  }

  /** Each group as four hexadecimal digits. */
  function FullTexts(g: seq<nat>): (t: seq<string>)
    ensures |t| == |g|
    ensures forall i :: 0 <= i < |t| ==> t[i] == FixedDigits(g[i], Hex, 4) && |t[i]| == 4
  {
    seq(|g|, i requires 0 <= i < |g| => FixedDigits(g[i], Hex, 4))
  }

  function Concat(parts: seq<string>): string {
    if parts == [] then "" else Concat(parts[..|parts| - 1]) + parts[|parts| - 1]
  }

  lemma TextsFree(g: seq<nat>, b: Base, c: char)
    requires DigitOf(c) >= Radix(b)
    ensures Free(Texts(g, b), c)
  {
    var t := Texts(g, b);
    forall p | p in t ensures c !in p {
      var i :| 0 <= i < |t| && t[i] == p;
      DigitsFree(p, b, c);
    }
  }

  lemma FullTextsFree(g: seq<nat>, c: char)
    requires DigitOf(c) >= 16
    ensures Free(FullTexts(g), c)
  {
    var t := FullTexts(g);
    forall p | p in t ensures c !in p {
      var i :| 0 <= i < |t| && t[i] == p;
      DigitsFree(p, Hex, c);
    }
  }

  lemma Power4()
    ensures Power(Hex, 4) == 65536 && Power(Hex, 3) == 4096 && Power(Decimal, 3) == 1000
  {
    assert Power(Hex, 1) == 16 && Power(Hex, 2) == 256 && Power(Hex, 3) == 4096;
    assert Power(Decimal, 1) == 10 && Power(Decimal, 2) == 100;
  }

  lemma GroupsLast(w: Width, v: nat, n: nat)
    requires n > 0
    ensures GroupsOf(w, v, n)[..n - 1] == GroupsOf(w, High(w, v), n - 1)
    ensures GroupsOf(w, v, n)[n - 1] == Low(w, v)
  {
  }

  lemma ConcatLast(g: seq<nat>)
    requires g != []
    ensures Concat(FullTexts(g)) == Concat(FullTexts(g[..|g| - 1])) + FixedDigits(g[|g| - 1], Hex, 4)
  {
    assert FullTexts(g)[..|g| - 1] == FullTexts(g[..|g| - 1]);
  }

  /** The last 4n digits of `0...0` followed by a numeral are the n four-digit groups. */
  lemma {:induction false} NumeralGroups(v: nat, n: nat)
    ensures FixedDigits(v, Hex, 4 * n) == Concat(FullTexts(GroupsOf(Hextet, v, n)))
  {
    if n > 0 {
      NumeralGroups(v / 65536, n - 1);
      GroupsLast(Hextet, v, n);
      ConcatLast(GroupsOf(Hextet, v, n));
      FourDigits(v, 4 * (n - 1));
    }
  }

  lemma FourDigits(v: nat, k: nat)
    ensures FixedDigits(v, Hex, k + 4) == FixedDigits(v / 65536, Hex, k) + FixedDigits(v % 65536, Hex, 4)
  {
    DropWord(v);
    DigitsSplit(v, k, 4);
    SameDigits(v, v % 65536, v / 65536, 4);
  }

  /** The number without its j last hexadecimal digits, and with j zeros appended. */
  function DropHex(n: nat, j: nat): nat {
    if j == 0 then n else DropHex(n / 16, j - 1)
  }

  function ShiftHex(n: nat, j: nat): nat {
    if j == 0 then n else 16 * ShiftHex(n, j - 1)
  }

  lemma DropWord(v: nat)
    ensures DropHex(v, 4) == v / 65536 && v == v % 65536 + ShiftHex(v / 65536, 4)
  {
    FourQuotients(v, v / 16, v / 16 / 16, v / 16 / 16 / 16);
    DropFour(v);
    ShiftFour(v / 65536);
  }

  lemma FourQuotients(v: nat, a: nat, b: nat, c: nat)
    requires a == v / 16 && b == a / 16 && c == b / 16
    ensures c / 16 == v / 65536
  {
    TwoQuotients(v, a);
    TwoQuotients(b, c);
    assert v == 256 * b + v % 256 && b == 256 * (b / 256) + b % 256;
  }

  lemma TwoQuotients(v: nat, a: nat)
    requires a == v / 16
    ensures a / 16 == v / 256
  {
    assert v == 16 * a + v % 16 && a == 16 * (a / 16) + a % 16;
  }

  lemma DropFour(v: nat)
    ensures DropHex(v, 4) == v / 16 / 16 / 16 / 16
  {
    var a, b, c := v / 16, v / 16 / 16, v / 16 / 16 / 16;
    assert DropHex(c, 1) == DropHex(c / 16, 0);
    assert DropHex(b, 2) == DropHex(c, 1);
    assert DropHex(a, 3) == DropHex(b, 2);
  }

  lemma ShiftFour(h: nat)
    ensures ShiftHex(h, 4) == 65536 * h
  {
    assert ShiftHex(h, 1) == 16 * ShiftHex(h, 0);
    assert ShiftHex(h, 2) == 16 * ShiftHex(h, 1);
    assert ShiftHex(h, 3) == 16 * ShiftHex(h, 2);
  }

  lemma {:induction false} DigitsSplit(n: nat, k: nat, j: nat)
    ensures FixedDigits(n, Hex, k + j) == FixedDigits(DropHex(n, j), Hex, k) + FixedDigits(n, Hex, j)
  {
    if j > 0 {
      DigitsSplit(n / 16, k, j - 1);
    }
  }

  lemma {:induction false} SameDigits(x: nat, y: nat, t: nat, j: nat)
    requires x == y + ShiftHex(t, j)
    ensures FixedDigits(x, Hex, j) == FixedDigits(y, Hex, j)
  {
    if j > 0 {
      assert x / 16 == y / 16 + ShiftHex(t, j - 1) && x % 16 == y % 16;
      SameDigits(x / 16, y / 16, t, j - 1);
    }
  }

  lemma {:induction false} ConcatAt(parts: seq<string>, i: nat, j: nat)
    requires forall k :: 0 <= k < |parts| ==> |parts[k]| == 4
    requires i < |parts| && j < 4
    ensures |Concat(parts)| == 4 * |parts|
    ensures Concat(parts)[4 * i + j] == parts[i][j]
  {
    var front := parts[..|parts| - 1];
    if front != [] {
      ConcatAt(front, if i < |front| then i else 0, j);
    }
  }
}
