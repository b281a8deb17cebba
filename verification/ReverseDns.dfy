/** Reverse-DNS names of IPv4 networks (section 3.5 of RFC 1035): the zones listed by
    `reverseNames` partition the network. */
module ReverseDns {
  import opened PyText
  import opened Groups
  import opened Notation
  import Address
  import opened Bits
  import opened Network
  import IPRoundTrip

  // ---------------------------------------------------------------- labels

  function Reversed(s: seq<string>): (r: seq<string>)
    ensures |r| == |s| && forall i :: 0 <= i < |s| ==> r[i] == s[|s| - 1 - i]
  {
    if s == [] then [] else Reversed(s[1..]) + [s[0]]
  }

  /** The labels of the reverse name of an address, the root label included. */
  function Labels(a: nat): (l: seq<string>)
    ensures |l| == 7
  {
    Reversed(Texts(GroupsOf(Octet, a, 4), Decimal)) + ["in-addr", "arpa", ""]
  }

  /** The name of the zone that covers all addresses with the same upper 4 - k bytes. */
  function Zone(a: nat, k: nat): string
    requires k <= 3
  {
    Join(Labels(a)[k..], '.')
  }

  ghost predicate IsSuffix(x: seq<string>, y: seq<string>) {
    |x| <= |y| && y[|y| - |x|..] == x
  }

  /** The zone's labels end the reverse name of the address. */
  ghost predicate ZoneCovers(zone: string, a: nat) {
    IsSuffix(Split(zone, '.'), Split(Zone(a, 0), '.'))
  }

  // ---------------------------------------------------------------- whole bytes

  /** The number without its k lowest bytes. */
  function Drop(k: nat, a: nat): nat {
    if k == 0 then a else Drop(k - 1, a / 256)
  }

  /** The number moved up by k bytes. */
  function Lift(k: nat, x: int): int {
    if k == 0 then x else 256 * Lift(k - 1, x)
  }

  lemma {:induction false} LiftOrder(k: nat, x: nat, a: nat)
    ensures Lift(k, x) <= a <==> x <= Drop(k, a)
    ensures Lift(k, x) >= 0
  {
    if k > 0 {
      LiftOrder(k - 1, x, a / 256);
    }
  }

  lemma {:induction false} LiftSum(k: nat, x: int, y: int)
    ensures Lift(k, x + y) == Lift(k, x) + Lift(k, y)
  {
    if k > 0 {
      LiftSum(k - 1, x, y);
    }
  }

  lemma {:induction false} DropLift(k: nat, x: nat)
    ensures Lift(k, x) >= 0 && Drop(k, Lift(k, x)) == x
  {
    if k > 0 {
      DropLift(k - 1, x);
    }
  }

  lemma {:induction false} LiftPow2(k: nat, x: nat, e: nat)
    requires x == Pow2(e)
    ensures Lift(k, x) == Pow2(8 * k + e)
  {
    if k > 0 {
      LiftPow2(k - 1, x, e);
      Pow2Of32();
      Pow2Add(8, 8 * (k - 1) + e);
    }
  }

  /** The upper bytes of a number are the bytes of the number without its lower ones. */
  lemma {:induction false} UpperBytes(a: nat, k: nat, n: nat)
    requires k <= n
    ensures GroupsOf(Octet, a, n)[..n - k] == GroupsOf(Octet, Drop(k, a), n - k)
  {
    if k > 0 {
      UpperBytes(a / 256, k - 1, n - 1);
      GroupsLast(Octet, a, n);
      assert GroupsOf(Octet, a, n)[..n - k] == GroupsOf(Octet, a, n)[..n - 1][..n - k];
    } else {
      assert GroupsOf(Octet, a, n)[..n] == GroupsOf(Octet, a, n);
    }
  }

  lemma {:induction false} DropBound(k: nat, a: nat, n: nat)
    requires k <= n && a < Limit(Octet, n)
    ensures Drop(k, a) < Limit(Octet, n - k)
  {
    if k > 0 {
      DropBound(k - 1, a / 256, n - 1);
    }
  }

  // ---------------------------------------------------------------- zones and addresses

  lemma LabelText(a: nat, i: nat)
    requires i < 4
    ensures Labels(a)[i] == Numeral(GroupsOf(Octet, a, 4)[3 - i], Decimal)
  {
  }

  lemma LabelFree(a: nat, i: nat)
    requires i < 7
    ensures '.' !in Labels(a)[i]
  {
    if i < 4 {
      LabelText(a, i);
      DigitsFree(Labels(a)[i], Decimal, '.');
    }
  }

  lemma LabelsFree(a: nat, k: nat)
    requires k <= 3
    ensures Split(Zone(a, k), '.') == Labels(a)[k..]
  {
    var labels := Labels(a)[k..];
    forall p | p in labels ensures '.' !in p {
      var i :| 0 <= i < |labels| && labels[i] == p;
      LabelFree(a, k + i);
    }
    SplitJoin(labels, '.');
  }

  lemma NumeralInjective(x: nat, y: nat)
    requires Numeral(x, Decimal) == Numeral(y, Decimal)
    ensures x == y
  {
    NumeralValue(x, Decimal);
    NumeralValue(y, Decimal);
  }

  lemma LabelsGiveBytes(a: nat, b: nat, k: nat)
    requires k <= 3 && Labels(a)[k..] == Labels(b)[k..]
    ensures GroupsOf(Octet, a, 4)[..4 - k] == GroupsOf(Octet, b, 4)[..4 - k]
  {
    var g, h := GroupsOf(Octet, a, 4), GroupsOf(Octet, b, 4);
    forall i | 0 <= i < 4 - k ensures g[i] == h[i] {
      assert Labels(a)[k..][3 - k - i] == Labels(b)[k..][3 - k - i];
      LabelText(a, 3 - i);
      LabelText(b, 3 - i);
      NumeralInjective(g[i], h[i]);
    }
  }

  lemma BytesGiveLabels(a: nat, b: nat, k: nat)
    requires k <= 3 && GroupsOf(Octet, a, 4)[..4 - k] == GroupsOf(Octet, b, 4)[..4 - k]
    ensures Labels(a)[k..] == Labels(b)[k..]
  {
    var g, h := GroupsOf(Octet, a, 4), GroupsOf(Octet, b, 4);
    forall i | k <= i < 4 ensures Labels(a)[i] == Labels(b)[i] {
      assert g[..4 - k][3 - i] == h[..4 - k][3 - i];
      LabelText(a, i);
      LabelText(b, i);
    }
  }

  lemma SameUpperBytes(a: nat, b: nat, k: nat)
    requires k <= 3 && a <= MAX4 && b <= MAX4
    ensures GroupsOf(Octet, a, 4)[..4 - k] == GroupsOf(Octet, b, 4)[..4 - k] <==> Drop(k, a) == Drop(k, b)
  {
    UpperBytesDenote(a, k);
    UpperBytesDenote(b, k);
  }

  lemma UpperBytesDenote(a: nat, k: nat)
    requires k <= 3 && a <= MAX4
    ensures GroupsOf(Octet, a, 4)[..4 - k] == GroupsOf(Octet, Drop(k, a), 4 - k)
    ensures FromGroups(Octet, GroupsOf(Octet, Drop(k, a), 4 - k)) == Drop(k, a)
  {
    UpperBytes(a, k, 4);
    Limits();
    DropBound(k, a, 4);
    FromGroupsOf(Octet, Drop(k, a), 4 - k);
  }

  lemma CoversIsSameLabels(b: nat, k: nat, a: nat)
    requires k <= 3
    ensures ZoneCovers(Zone(b, k), a) <==> Labels(a)[k..] == Labels(b)[k..]
  {
    LabelsFree(b, k);
    LabelsFree(a, 0);
    assert Labels(a)[0..] == Labels(a);
  }

  /** The zone of b without its k lowest bytes covers exactly the addresses that agree
      with b in the other bytes. */
  lemma ZoneMeaning(b: nat, k: nat, a: nat)
    requires k <= 3 && a <= MAX4 && b <= MAX4
    ensures ZoneCovers(Zone(b, k), a) <==> Drop(k, a) == Drop(k, b)
  {
    CoversIsSameLabels(b, k, a);
    SameUpperBytes(a, b, k);
    if Drop(k, a) == Drop(k, b) {
      BytesGiveLabels(a, b, k);
    }
    if Labels(a)[k..] == Labels(b)[k..] {
      LabelsGiveBytes(a, b, k);
    }
  }

  // ---------------------------------------------------------------- reverseNames

  /** How many low bytes the zones of the network leave out. */
  function ZoneBytes(n: Net): nat
    requires n.version == 4 && 0 <= n.prefixlen <= 32
  {
    if n.prefixlen > 24 then 0 else if n.prefixlen > 16 then 1 else if n.prefixlen > 8 then 2 else 3
  }

  /** The number of zones. */
  function ZoneCount(n: Net): nat
    requires n.version == 4 && 0 <= n.prefixlen <= 32
  {
    Pow2(32 - n.prefixlen - 8 * ZoneBytes(n))
  }

  /** What `reverseNames` lists: the zone the network starts in and those after it. */
  function ReverseNames(n: Net): (names: seq<string>)
    requires n.version == 4 && 0 <= n.prefixlen <= 32 && 0 <= n.ip
    ensures |names| == ZoneCount(n)
  {
    ZonesFrom(ZoneBytes(n), Drop(ZoneBytes(n), n.ip), ZoneCount(n))
  }

  function ZoneName(k: nat, q: nat): string
    requires k <= 3
  {
    LiftOrder(k, q, 0);
    Zone(Lift(k, q), k)
  }

  function ZonesFrom(k: nat, q: nat, count: nat): (names: seq<string>)
    requires k <= 3
    ensures |names| == count
    ensures forall i :: 0 <= i < count ==> names[i] == ZoneName(k, q + i)
  {
    seq(count, i requires 0 <= i => ZoneName(k, q + i))
  }

  /** The network reaches from the beginning of zone q to the end of the last of `count`
      zones. */
  ghost predicate Spans(n: Net, k: nat, q: nat, count: nat)
    requires n.version == 4 && n.prefixlen <= 32
  {
    k <= 3 && n.ip == Lift(k, q) && Len(n) == Lift(k, count) && n.ip + Len(n) == Lift(k, q + count) <= MAX4 + 1
  }

  /** A network is a whole number of zones, starting at a zone border. */
  lemma ListedZones(n: Net) returns (k: nat, q: nat, count: nat)
    requires Aligned(n) && n.version == 4
    ensures Spans(n, k, q, count) && ReverseNames(n) == ZonesFrom(k, q, count)
    ensures k == ZoneBytes(n) && count == ZoneCount(n)
  {
    k, q, count := ZoneBytes(n), Drop(ZoneBytes(n), n.ip), ZoneCount(n);
    NetworkUnits(n);
    SpansSum(n, k, q, count);
  }

  lemma SpansSum(n: Net, k: nat, q: nat, count: nat)
    requires Aligned(n) && n.version == 4 && k <= 3 && n.ip == Lift(k, q) && Len(n) == Lift(k, count)
    ensures Spans(n, k, q, count)
  {
    LastInNetwork(n);
    LiftSum(k, q, count);
  }

  lemma NetworkUnits(n: Net)
    requires Aligned(n) && n.version == 4
    ensures n.ip == Lift(ZoneBytes(n), Drop(ZoneBytes(n), n.ip)) && Len(n) == Lift(ZoneBytes(n), ZoneCount(n))
  {
    var k, z := ZoneBytes(n), 32 - n.prefixlen;
    assert ZoneCount(n) == Pow2(z - 8 * k) && Len(n) == Pow2(z) && Divisible(n.ip, z);
    ZoneUnits(n.ip, k, z - 8 * k, z);
  }

  lemma LastInNetwork(n: Net)
    requires Aligned(n) && n.version == 4
    ensures 0 <= n.ip && 1 <= Len(n) && n.ip + Len(n) <= MAX4 + 1
  {
    IPRoundTrip.LastOfBlock(n);
  }

  lemma ZoneUnits(ip: nat, k: nat, e: nat, z: nat)
    requires z == 8 * k + e && Divisible(ip, z)
    ensures ip == Lift(k, Drop(k, ip)) && Pow2(z) == Lift(k, Pow2(e))
  {
    LiftPow2(k, Pow2(e), e);
    AlignedLift(k, ip, e);
  }

  lemma {:induction false} AlignedLift(k: nat, ip: nat, e: nat)
    requires Divisible(ip, 8 * k + e)
    ensures ip == Lift(k, Drop(k, ip))
  {
    if k > 0 {
      ByteAligned(ip, 8 * (k - 1) + e);
      AlignedLift(k - 1, ip / 256, e);
    }
  }

  lemma ByteAligned(ip: nat, z: nat)
    requires Divisible(ip, 8 + z)
    ensures ip % 256 == 0 && Divisible(ip / 256, z)
  {
    HalfByteAligned(ip, 4 + z);
    HalfByteAligned(ip / 16, z);
    assert ip / 16 / 16 == ip / 256;
  }

  lemma HalfByteAligned(ip: nat, z: nat)
    requires Divisible(ip, 4 + z)
    ensures ip % 16 == 0 && Divisible(ip / 16, z)
  {
    assert Divisible(ip / 2, 3 + z) && Divisible(ip / 2 / 2, 2 + z) && Divisible(ip / 2 / 2 / 2, 1 + z);
    assert ip / 2 / 2 / 2 / 2 == ip / 16;
  }

  /** A zone covers exactly its own slice of the address space. */
  lemma ZoneSlice(k: nat, q: nat, a: nat)
    requires k <= 3 && a <= MAX4 && Lift(k, q) <= MAX4
    ensures ZoneCovers(ZoneName(k, q), a) <==> Drop(k, a) == q
  {
    LiftOrder(k, q, 0);
    DropLift(k, q);
    ZoneMeaning(Lift(k, q), k, a);
  }

  lemma {:induction false} PositiveLift(k: nat, x: nat)
    requires x > 0
    ensures Lift(k, x) > 0
  {
    if k > 0 {
      PositiveLift(k - 1, x);
    }
  }

  ghost predicate InSomeZone(names: seq<string>, a: nat) {
    exists i :: 0 <= i < |names| && ZoneCovers(names[i], a)
  }

  ghost predicate InAtMostOneZone(names: seq<string>, a: nat) {
    forall i, j :: 0 <= i < |names| && 0 <= j < |names| && ZoneCovers(names[i], a) && ZoneCovers(names[j], a) ==> i == j
  }

  /** Every address of the network lies in exactly one listed zone, and no listed zone
      covers an address outside the network. */
  lemma ReverseNamesPartition(n: Net, a: nat)
    requires Aligned(n) && n.version == 4 && a <= MAX4
    ensures Covers(n, a) <==> InSomeZone(ReverseNames(n), a)
    ensures InAtMostOneZone(ReverseNames(n), a)
  {
    var k, q, count := ListedZones(n);
    InNetwork(n, k, q, count, a);
    ZonesPartition(k, q, count, ReverseNames(n), a);
  }

  /** The network holds the addresses whose upper bytes are those of its zones. */
  lemma InNetwork(n: Net, k: nat, q: nat, count: nat, a: nat)
    requires n.version == 4 && n.prefixlen <= 32 && Spans(n, k, q, count)
    ensures Covers(n, a) <==> q <= Drop(k, a) < q + count
  {
    LiftOrder(k, q, a);
    LiftOrder(k, q + count, a);
  }

  lemma ZonesPartition(k: nat, q: nat, count: nat, names: seq<string>, a: nat)
    requires k <= 3 && a <= MAX4 && Lift(k, q + count) <= MAX4 + 1 && names == ZonesFrom(k, q, count)
    ensures q <= Drop(k, a) < q + count <==> InSomeZone(names, a)
    ensures InAtMostOneZone(names, a)
  {
    forall i | 0 <= i < count ensures ZoneCovers(names[i], a) <==> Drop(k, a) == q + i {
      ZoneOfList(k, q, count, i, a);
    }
    SlicesPartition(names, a, Drop(k, a), q);
  }

  lemma ZoneOfList(k: nat, q: nat, count: nat, i: nat, a: nat)
    requires k <= 3 && a <= MAX4 && Lift(k, q + count) <= MAX4 + 1 && i < count
    ensures ZoneCovers(ZoneName(k, q + i), a) <==> Drop(k, a) == q + i
  {
    LiftLess(k, q + i, q + count);
    ZoneSlice(k, q + i, a);
  }

  lemma SlicesPartition(names: seq<string>, a: nat, d: nat, q: nat)
    requires forall i :: 0 <= i < |names| ==> (ZoneCovers(names[i], a) <==> d == q + i)
    ensures q <= d < q + |names| <==> InSomeZone(names, a)
    ensures InAtMostOneZone(names, a)
  {
    if q <= d < q + |names| {
      assert ZoneCovers(names[d - q], a);
    }
  }

  /** There are as few zones as whole bytes allow: one for each value that the bits between
      the prefix and the end of its byte can take. */
  lemma FewestZones(n: Net)
    requires Aligned(n) && n.version == 4
    ensures |ReverseNames(n)| == Pow2(if n.prefixlen == 0 then 8 else (32 - n.prefixlen) % 8)
    ensures n.prefixlen >= 1 ==> |ReverseNames(n)| <= 128
  {
    ZoneBits(n);
    if n.prefixlen >= 1 {
      AtMost128((32 - n.prefixlen) % 8);
    }
  }

  lemma ZoneBits(n: Net)
    requires n.version == 4 && 0 <= n.prefixlen <= 32
    ensures 32 - n.prefixlen - 8 * ZoneBytes(n) == if n.prefixlen == 0 then 8 else (32 - n.prefixlen) % 8
  {
  }

  lemma AtMost128(e: nat)
    requires e <= 7
    ensures Pow2(e) <= 128
  {
    Pow2Mono(e, 7);
    assert Pow2(3) == 8 && Pow2(7) == 128;
  }

  /** The zones are listed in the order of their addresses. */
  lemma ZonesInOrder(n: Net, a: nat, b: nat, i: nat, j: nat)
    requires Aligned(n) && n.version == 4 && a <= b <= MAX4 && i < |ReverseNames(n)| && j < |ReverseNames(n)|
    requires ZoneCovers(ReverseNames(n)[i], a) && ZoneCovers(ReverseNames(n)[j], b)
    ensures i <= j
  {
    var k, q, count := ListedZones(n);
    ZoneOfList(k, q, count, i, a);
    ZoneOfList(k, q, count, j, b);
    LiftOrder(k, Drop(k, a), a);
    LiftOrder(k, Drop(k, a), b);
  }

  // ---------------------------------------------------------------- reverseName

  /** The byte that the prefix ends in. */
  function CutByte(n: Net, a: nat): nat
    requires 0 <= n.prefixlen < 32
  {
    GroupsOf(Octet, a, 4)[n.prefixlen / 8]
  }

  function LastAddress(n: Net): nat
    requires Aligned(n) && n.version == 4
  {
    n.ip + Len(n) - 1
  }

  /** What is printed for a prefix that ends inside a byte. */
  function RangeLabel(n: Net): string
    requires Aligned(n) && n.version == 4 && n.prefixlen % 8 != 0
  {
    Numeral(CutByte(n, n.ip), Decimal) + "-" + Numeral(GroupsOf(Octet, LastAddress(n), 4)[3], Decimal)
  }

  /** The whole bytes of the prefix, backwards. */
  function WholeBytes(n: Net): (l: seq<string>)
    requires Aligned(n) && n.version == 4
    ensures |l| == n.prefixlen / 8
  {
    Reversed(Texts(GroupsOf(Octet, n.ip, 4), Decimal))[4 - n.prefixlen / 8..]
  }

  /** `reverseName()` */
  function NameOf(n: Net): string
    requires Aligned(n) && n.version == 4
  {
    (if n.prefixlen % 8 == 0 then "" else RangeLabel(n) + ".") + Join(WholeBytes(n), '.') + ".in-addr.arpa."
  }

  /** The labels behind the first one. Below 8 bits there is an empty one among them. */
  function Tail(n: Net): seq<string>
    requires Aligned(n) && n.version == 4
  {
    (if n.prefixlen < 8 then [""] else WholeBytes(n)) + ["in-addr", "arpa", ""]
  }

  lemma NameIsJoin(n: Net)
    requires Aligned(n) && n.version == 4
    ensures NameOf(n) == (if n.prefixlen % 8 == 0 then "" else RangeLabel(n) + ".") + Join(Tail(n), '.')
  {
    JoinedSuffix(WholeBytes(n), if n.prefixlen < 8 then [""] else WholeBytes(n));
  }

  lemma LabelSplit(first: string, rest: seq<string>)
    requires '.' !in first && Free(rest, '.') && rest != []
    ensures Split(Join(rest, '.'), '.') == rest
    ensures Split(first + "." + Join(rest, '.'), '.') == [first] + rest
  {
    SplitJoin(rest, '.');
    SplitHead(first, Join(rest, '.'), '.');
  }

  /** The labels of the name. */
  lemma NameLabels(n: Net)
    requires Aligned(n) && n.version == 4
    ensures Split(NameOf(n), '.') == (if n.prefixlen % 8 == 0 then [] else [RangeLabel(n)]) + Tail(n)
  {
    NameIsJoin(n);
    BytesFree(n);
    if n.prefixlen % 8 != 0 {
      RangeFree(n);
      LabelSplit(RangeLabel(n), Tail(n));
    } else {
      LabelSplit("", Tail(n));
      assert "" + Join(Tail(n), '.') == Join(Tail(n), '.');
    }
  }

  lemma JoinedSuffix(whole: seq<string>, bytes: seq<string>)
    requires bytes == if whole == [] then [""] else whole
    ensures Join(bytes + ["in-addr", "arpa", ""], '.') == Join(whole, '.') + ".in-addr.arpa."
  {
    assert Join(bytes, '.') == Join(whole, '.');
    JoinAppend(bytes, ["in-addr", "arpa", ""], '.');
    JoinThree();
    DotSuffix(Join(whole, '.'));
  }

  lemma DotSuffix(s: string)
    ensures s + "." + "in-addr.arpa." == s + ".in-addr.arpa."
  {
  }

  lemma BytesFree(n: Net)
    requires Aligned(n) && n.version == 4
    ensures Free(Tail(n), '.')
  {
    var t := Texts(GroupsOf(Octet, n.ip, 4), Decimal);
    TextsFree(GroupsOf(Octet, n.ip, 4), Decimal, '.');
    forall i | 0 <= i < |WholeBytes(n)| ensures '.' !in WholeBytes(n)[i] {
      assert WholeBytes(n)[i] == Reversed(t)[4 - n.prefixlen / 8 + i];
      assert WholeBytes(n)[i] in t;
    }
  }

  lemma RangeFree(n: Net)
    requires Aligned(n) && n.version == 4 && n.prefixlen % 8 != 0
    ensures '.' !in RangeLabel(n)
  {
    DigitsFree(Numeral(CutByte(n, n.ip), Decimal), Decimal, '.');
    DigitsFree(Numeral(GroupsOf(Octet, LastAddress(n), 4)[3], Decimal), Decimal, '.');
  }

  lemma WholeZone(n: Net)
    requires Aligned(n) && n.version == 4 && n.prefixlen % 8 == 0 && n.prefixlen >= 8
    ensures ZoneBytes(n) == 4 - n.prefixlen / 8 && ZoneCount(n) == 1
    ensures NameOf(n) == Zone(n.ip, 4 - n.prefixlen / 8)
  {
    WholeBytesZone(n);
    NameIsJoin(n);
    UpperLabels(n);
  }

  lemma WholeBytesZone(n: Net)
    requires Aligned(n) && n.version == 4 && n.prefixlen % 8 == 0 && n.prefixlen >= 8
    ensures ZoneBytes(n) == 4 - n.prefixlen / 8 && ZoneCount(n) == 1
  {
    assert Pow2(0) == 1;
  }

  lemma UpperLabels(n: Net)
    requires Aligned(n) && n.version == 4 && n.prefixlen >= 8
    ensures Labels(n.ip)[4 - n.prefixlen / 8..] == Tail(n)
  {
    var bytes, zone := Reversed(Texts(GroupsOf(Octet, n.ip, 4), Decimal)), ["in-addr", "arpa", ""];
    CutFront(bytes, zone, 4 - n.prefixlen / 8);
  }

  lemma CutFront(bytes: seq<string>, zone: seq<string>, k: nat)
    requires k <= |bytes|
    ensures (bytes + zone)[k..] == bytes[k..] + zone
  {
  }

  /** For a prefix of one to four whole bytes the name is the one zone of the network. */
  lemma WholeByteName(n: Net)
    requires Aligned(n) && n.version == 4 && n.prefixlen % 8 == 0 && n.prefixlen >= 8
    ensures ReverseNames(n) == [NameOf(n)]
  {
    WholeZone(n);
    var k, q, count := ListedZones(n);
    assert ReverseNames(n)[0] == ZoneName(k, q);
  }

  /** So the name is a suffix of the reverse names of exactly the network's addresses. */
  lemma WholeByteCovers(n: Net, a: nat)
    requires Aligned(n) && n.version == 4 && n.prefixlen % 8 == 0 && n.prefixlen >= 8 && a <= MAX4
    ensures ZoneCovers(NameOf(n), a) <==> Covers(n, a)
  {
    WholeByteName(n);
    ReverseNamesPartition(n, a);
    OnlyZone(NameOf(n), ReverseNames(n), a);
  }

  lemma OnlyZone(name: string, names: seq<string>, a: nat)
    requires names == [name]
    ensures InSomeZone(names, a) <==> ZoneCovers(name, a)
  {
    assert names[0] == name;
  }

  /** Byte i of an IPv4 address, from the left. */
  function ByteAt(a: nat, i: nat): nat {
    if i == 0 then a / 0x100_0000 % 256
    else if i == 1 then a / 0x1_0000 % 256
    else if i == 2 then a / 0x100 % 256
    else a % 256
  }

  lemma BytesAre(a: nat)
    requires a <= MAX4
    ensures GroupsOf(Octet, a, 4) == [ByteAt(a, 0), ByteAt(a, 1), ByteAt(a, 2), ByteAt(a, 3)]
  {
    var g := GroupsOf(Octet, a, 4);
    GroupsLast(Octet, a, 4);
    GroupsLast(Octet, a / 256, 3);
    GroupsLast(Octet, a / 256 / 256, 2);
    GroupsLast(Octet, a / 256 / 256 / 256, 1);
    Quotients(a);
    assert g[3] == a % 256 && g[2] == g[..3][2] && g[1] == g[..3][..2][1] && g[0] == g[..3][..2][..1][0];
  }

  lemma Quotients(a: nat)
    ensures a / 256 / 256 == a / 0x1_0000 && a / 256 / 256 / 256 == a / 0x100_0000
  {
    assert a == 256 * (a / 256) + a % 256;
    assert a / 256 == 256 * (a / 256 / 256) + a / 256 % 256;
    assert a / 256 / 256 == 256 * (a / 256 / 256 / 256) + a / 256 / 256 % 256;
  }

  lemma {:induction false} DropNext(k: nat, a: nat)
    ensures Drop(k + 1, a) == Drop(k, a) / 256
  {
    if k > 0 {
      DropNext(k - 1, a / 256);
    }
  }

  lemma ByteOfDrop(a: nat, i: nat)
    requires i < 4
    ensures ByteAt(a, i) == Drop(3 - i, a) % 256
  {
    Quotients(a);
    assert Drop(0, a) == a && Drop(1, a) == Drop(0, a / 256);
    assert Drop(2, a) == Drop(1, a / 256) && Drop(1, a / 256) == Drop(0, a / 256 / 256);
    assert Drop(3, a) == Drop(2, a / 256) && Drop(2, a / 256) == Drop(1, a / 256 / 256);
  }

  lemma {:induction false} LiftDivisible(k: nat, q: nat)
    ensures Lift(k, q) >= 0 && Divisible(Lift(k, q), 8 * k)
  {
    if k > 0 {
      LiftDivisible(k - 1, q);
      EightMore(Lift(k - 1, q), 8 * (k - 1));
    }
  }

  lemma Double(x: nat, z: nat)
    requires Divisible(x, z)
    ensures Divisible(2 * x, 1 + z)
  {
    assert 2 * x / 2 == x;
  }

  lemma EightMore(x: nat, z: nat)
    requires Divisible(x, z)
    ensures Divisible(256 * x, 8 + z)
  {
    Double(x, z);
    Double(2 * x, 1 + z);
    Double(4 * x, 2 + z);
    Double(8 * x, 3 + z);
    Double(16 * x, 4 + z);
    Double(32 * x, 5 + z);
    Double(64 * x, 6 + z);
    Double(128 * x, 7 + z);
  }

  /** The addresses of a network agree in the bytes above byte i, if its prefix reaches
      that far. */
  lemma SameUpper(n: Net, k: nat, a: nat)
    requires Aligned(n) && n.version == 4 && 32 - n.prefixlen <= 8 * k && Covers(n, a)
    ensures Drop(k, a) == Drop(k, n.ip)
  {
    NetBlock(n, a);
    SameZone(n.ip, 32 - n.prefixlen, k, a);
  }

  lemma NetBlock(n: Net, a: nat)
    requires Aligned(n) && n.version == 4 && Covers(n, a)
    ensures 0 <= n.ip <= a < n.ip + Pow2(32 - n.prefixlen) && Divisible(n.ip, 32 - n.prefixlen)
  {
  }

  lemma SameZone(ip: nat, z: nat, k: nat, a: nat)
    requires Divisible(ip, z) && z <= 8 * k && ip <= a < ip + Pow2(z)
    ensures Drop(k, a) == Drop(k, ip)
  {
    ZoneAround(ip, z, k);
    SameDrop(k, Drop(k, ip), a);
  }

  lemma SameDrop(k: nat, q: nat, a: nat)
    requires Lift(k, q) <= a < Lift(k, q + 1)
    ensures Drop(k, a) == q
  {
    LiftOrder(k, q, a);
    LiftOrder(k, q + 1, a);
  }

  /** A block that is no larger than a zone lies in the zone of its first address. */
  lemma ZoneAround(ip: nat, z: nat, k: nat)
    requires Divisible(ip, z) && z <= 8 * k
    ensures Lift(k, Drop(k, ip)) <= ip && ip + Pow2(z) <= Lift(k, Drop(k, ip) + 1)
  {
    var q := Drop(k, ip);
    LiftOrder(k, q, ip);
    LiftOrder(k, q + 1, ip);
    ZoneBlock(k, q);
    BlocksNest(Lift(k, q), 8 * k, ip, z, ip);
  }

  lemma ZoneBlock(k: nat, q: nat)
    ensures Lift(k, q) >= 0 && Divisible(Lift(k, q), 8 * k) && Lift(k, q + 1) == Lift(k, q) + Pow2(8 * k)
  {
    LiftSum(k, q, 1);
    LiftPow2(k, 1, 0);
    LiftDivisible(k, q);
  }

  /** Of two addresses with the same bytes above byte i the larger one has the larger byte. */
  lemma ByteOrder(x: nat, y: nat, i: nat)
    requires i < 4 && x <= y && Drop(4 - i, x) == Drop(4 - i, y)
    ensures ByteAt(x, i) <= ByteAt(y, i)
  {
    ByteOfDrop(x, i);
    ByteOfDrop(y, i);
    DropNext(3 - i, x);
    DropNext(3 - i, y);
    LiftOrder(3 - i, Drop(3 - i, x), x);
    LiftOrder(3 - i, Drop(3 - i, x), y);
  }

  /** Byte i takes values from lo to hi in the network, and both of them. */
  ghost predicate ByteRange(n: Net, i: nat, lo: nat, hi: nat)
    requires Aligned(n) && n.version == 4
  {
    && (forall a: nat :: Covers(n, a) ==> lo <= ByteAt(a, i) <= hi)
    && (exists a: nat :: Covers(n, a) && ByteAt(a, i) == lo)
    && (exists a: nat :: Covers(n, a) && ByteAt(a, i) == hi)
  }

  /** The byte in which the prefix ends is smallest in the first address of the network and
      greatest in the last. */
  lemma EndByteRange(n: Net)
    requires Aligned(n) && n.version == 4 && n.prefixlen < 32
    ensures ByteRange(n, n.prefixlen / 8, ByteAt(n.ip, n.prefixlen / 8), ByteAt(LastAddress(n), n.prefixlen / 8))
  {
    var i, last := n.prefixlen / 8, LastAddress(n);
    LastInNetwork(n);
    forall a: nat | Covers(n, a) ensures ByteAt(n.ip, i) <= ByteAt(a, i) <= ByteAt(last, i) {
      SameUpper(n, 4 - i, a);
      SameUpper(n, 4 - i, last);
      ByteOrder(n.ip, a, i);
      ByteOrder(a, last, i);
    }
    assert Covers(n, n.ip) && Covers(n, last);
  }

  /** The first label of a prefix that ends inside a byte: that byte of the first address,
      and the last byte of the last one. */
  lemma FirstLabel(n: Net)
    requires Aligned(n) && n.version == 4 && n.prefixlen % 8 != 0
    ensures |Split(NameOf(n), '.')| > 0
    ensures Split(NameOf(n), '.')[0]
         == Numeral(ByteAt(n.ip, n.prefixlen / 8), Decimal) + "-" + Numeral(ByteAt(LastAddress(n), 3), Decimal)
  {
    LastInNetwork(n);
    NameLabels(n);
    BytesAre(n.ip);
    BytesAre(LastAddress(n));
  }

  /** The other labels: the whole bytes of the prefix from the last to the first, then the
      two labels of the zone and the root. */
  lemma OtherLabels(n: Net, j: nat)
    requires Aligned(n) && n.version == 4 && n.prefixlen >= 8 && j < n.prefixlen / 8
    ensures var labels, skip := Split(NameOf(n), '.'), if n.prefixlen % 8 == 0 then 0 else 1;
            && |labels| == skip + n.prefixlen / 8 + 3
            && labels[skip + j] == Numeral(ByteAt(n.ip, n.prefixlen / 8 - 1 - j), Decimal)
            && labels[|labels| - 3..] == ["in-addr", "arpa", ""]
  {
    LastInNetwork(n);
    NameLabels(n);
    WholeByte(n, j);
    AfterFront(if n.prefixlen % 8 == 0 then [] else [RangeLabel(n)], WholeBytes(n), ["in-addr", "arpa", ""], j);
  }

  lemma AfterFront(front: seq<string>, bytes: seq<string>, zone: seq<string>, j: nat)
    requires j < |bytes| && |zone| == 3
    ensures var all := front + (bytes + zone);
            |all| == |front| + |bytes| + 3 && all[|front| + j] == bytes[j] && all[|all| - 3..] == zone
  {
  }

  lemma WholeByte(n: Net, j: nat)
    requires Aligned(n) && n.version == 4 && n.ip <= MAX4 && j < n.prefixlen / 8
    ensures WholeBytes(n)[j] == Numeral(ByteAt(n.ip, n.prefixlen / 8 - 1 - j), Decimal)
  {
    var i := n.prefixlen / 8 - 1 - j;
    BytesAre(n.ip);
    assert WholeBytes(n)[j] == Reversed(Texts(GroupsOf(Octet, n.ip, 4), Decimal))[3 - i];
    ReversedByte(n.ip, i);
  }

  /** For a prefix that ends inside a byte the first label should name the values that this
      byte takes in the network; it does so exactly if the byte is the last one, or the
      greatest of them is 255. */
  lemma RangeLabelRight(n: Net, lo: nat, hi: nat)
    requires Aligned(n) && n.version == 4 && n.prefixlen % 8 != 0 && ByteRange(n, n.prefixlen / 8, lo, hi)
    ensures |Split(NameOf(n), '.')| > 0
    ensures Split(NameOf(n), '.')[0] == Numeral(lo, Decimal) + "-" + Numeral(hi, Decimal) <==> n.prefixlen > 24 || hi == 255
  {
    EndByteRange(n);
    RangeUnique(n, n.prefixlen / 8, lo, hi, ByteAt(n.ip, n.prefixlen / 8), ByteAt(LastAddress(n), n.prefixlen / 8));
    FirstLabel(n);
    var y := ByteAt(LastAddress(n), 3);
    SamePrefix(Numeral(lo, Decimal) + "-", Numeral(hi, Decimal), Numeral(y, Decimal));
    if Numeral(hi, Decimal) == Numeral(y, Decimal) {
      NumeralInjective(hi, y);
    }
    if n.prefixlen < 24 {
      LastByteFull(n);
    }
  }

  lemma RangeUnique(n: Net, i: nat, lo: nat, hi: nat, lo': nat, hi': nat)
    requires Aligned(n) && n.version == 4 && ByteRange(n, i, lo, hi) && ByteRange(n, i, lo', hi')
    ensures lo == lo' && hi == hi'
  {
  }

  lemma SamePrefix(front: string, a: string, b: string)
    ensures front + a == front + b <==> a == b
  {
    assert (front + a)[|front|..] == a && (front + b)[|front|..] == b;
  }

  lemma LastByteFull(n: Net)
    requires Aligned(n) && n.version == 4 && n.prefixlen < 24
    ensures ByteAt(LastAddress(n), 3) == 255
  {
    LastIs(n);
    LastByteOf(n.ip, 24 - n.prefixlen, LastAddress(n));
  }

  lemma LastIs(n: Net)
    requires Aligned(n) && n.version == 4
    ensures n.ip >= 0 && Divisible(n.ip, 32 - n.prefixlen) && LastAddress(n) == n.ip + Pow2(32 - n.prefixlen) - 1
  {
  }

  lemma LastByteOf(ip: nat, e: nat, last: nat)
    requires Divisible(ip, 8 + e) && last == ip + Pow2(8 + e) - 1
    ensures ByteAt(last, 3) == 255
  {
    Pow2Of32();
    Pow2Add(8, e);
    ByteAligned(ip, e);
    MultipleLast(ip / 256, Pow2(e), ip);
  }

  lemma MultipleLast(q: nat, m: nat, ip: nat)
    requires ip == 256 * q && m > 0
    ensures (ip + 256 * m - 1) % 256 == 255
  {
    assert ip + 256 * m - 1 == 256 * (q + m - 1) + 255;
  }

  /** `s.split('.')` reversed, for the text of an address. */
  method ReversedBytes(ip: nat) returns (s: seq<string>)
    requires ip <= MAX4
    ensures s == Reversed(Texts(GroupsOf(Octet, ip, 4), Decimal)) && |s| == 4
  {
    var text := Address.PrintBytes(ip);
    DottedShape(ip);
    s := Split(text, '.');
    s := Reversed(s);
  }

  /** `intToIp(ip, 4).split('.')[-1]` */
  method LastByteText(ip: nat) returns (s: string)
    requires ip <= MAX4
    ensures s == Numeral(GroupsOf(Octet, ip, 4)[3], Decimal)
  {
    var text := Address.PrintBytes(ip);
    DottedShape(ip);
    var parts := Split(text, '.');
    s := parts[|parts| - 1];
  }

  method NibblePart(x: Net, s: seq<string>) returns (nibblepart: string)
    requires Aligned(x) && x.version == 4 && x.prefixlen % 8 != 0
    requires s == Reversed(Texts(GroupsOf(Octet, x.ip, 4), Decimal))
    ensures nibblepart == RangeLabel(x) + "."
  {
    LastInNetwork(x);
    ReversedByte(x.ip, x.prefixlen / 8);
    var last := LastByteText(x.ip + Len(x) - 1);
    nibblepart := s[3 - x.prefixlen / 8];
    assert nibblepart == Numeral(CutByte(x, x.ip), Decimal);
    nibblepart := nibblepart + "-" + last;
    nibblepart := nibblepart + ".";
  }

  lemma ReversedByte(ip: nat, i: nat)
    requires i < 4
    ensures Reversed(Texts(GroupsOf(Octet, ip, 4), Decimal))[3 - i] == Numeral(GroupsOf(Octet, ip, 4)[i], Decimal)
  {
  }

  method ReverseName(x: Net) returns (name: string)
    requires Aligned(x) && x.version == 4
    ensures name == NameOf(x)
  {
    LastInNetwork(x);
    var s := ReversedBytes(x.ip);
    var firstByteIndex := 4 - x.prefixlen / 8;
    var nibblepart := "";
    if x.prefixlen % 8 != 0 {
      nibblepart := NibblePart(x, s);
    }
    name := nibblepart + Join(s[firstByteIndex..], '.') + ".in-addr.arpa.";
  }

  /** The name of a single address. */
  lemma SingleName(x: Net)
    requires Aligned(x) && x.version == 4 && x.prefixlen == 32
    ensures NameOf(x) == Zone(x.ip, 0)
  {
    WholeZone(x);
  }

  // ---------------------------------------------------------------- the loops

  lemma JoinThree()
    ensures Join(["in-addr", "arpa", ""], '.') == "in-addr.arpa."
  {
    assert ["in-addr", "arpa", ""][1..] == ["arpa", ""] && ["arpa", ""][1..] == [""];
    assert Join([""], '.') == "" && Join(["arpa", ""], '.') == "arpa.";
  }

  lemma {:induction false} LowBytesZero(k: nat, x: nat, n: nat, j: nat)
    requires j < k <= n
    ensures Lift(k, x) >= 0
    ensures GroupsOf(Octet, Lift(k, x), n)[n - 1 - j] == 0
  {
    LiftOrder(k, x, 0);
    LiftOrder(k - 1, x, 0);
    GroupsLast(Octet, Lift(k, x), n);
    if j > 0 {
      LowBytesZero(k - 1, x, n - 1, j - 1);
      assert GroupsOf(Octet, Lift(k, x), n)[..n - 1][n - 1 - j] == 0;
    }
  }

  /** Cutting two characters off a name whose first label is 0 cuts off the label. */
  lemma {:induction false} CutLabels(k: nat, x: nat, j: nat)
    requires j <= k <= 3
    ensures Lift(k, x) >= 0
    ensures IsCut(Zone(Lift(k, x), 0), 2 * j, Zone(Lift(k, x), j))
  {
    LiftOrder(k, x, 0);
    if j > 0 {
      CutLabels(k, x, j - 1);
      ZeroLabel(k, x, j - 1);
      CutTwo(Zone(Lift(k, x), 0), Zone(Lift(k, x), j - 1), Zone(Lift(k, x), j), 2 * (j - 1));
    }
  }

  /** `whole[i:] == rest` */
  predicate IsCut(whole: string, i: nat, rest: string) {
    i <= |whole| && whole[i..] == rest
  }

  lemma ZeroLabel(k: nat, x: nat, j: nat)
    requires j < k <= 3
    ensures Lift(k, x) >= 0 && Zone(Lift(k, x), j) == "0." + Zone(Lift(k, x), j + 1)
  {
    LiftOrder(k, x, 0);
    LowBytesZero(k, x, 4, j);
    CutZero(Lift(k, x), j);
  }

  lemma CutZero(a: nat, j: nat)
    requires j < 3 && GroupsOf(Octet, a, 4)[3 - j] == 0
    ensures Zone(a, j) == "0." + Zone(a, j + 1)
  {
    LabelText(a, j);
    assert Labels(a)[j] == Numeral(0, Decimal) == "0";
    assert Labels(a)[j..][1..] == Labels(a)[j + 1..];
    assert Zone(a, j) == "0" + "." + Zone(a, j + 1);
  }

  lemma CutTwo(whole: string, rest: string, left: string, i: nat)
    requires IsCut(whole, i, rest) && rest == "0." + left
    ensures IsCut(whole, i + 2, left)
  {
    assert whole[i + 2..] == rest[2..];
  }

  /** One of the four loops: the names of every step-th address, without the first
      `skip` characters. */
  method NamesEvery(ip: nat, len: nat, step: nat, skip: nat, ghost k: nat, ghost q: nat, ghost count: nat)
    returns (ret: seq<string>)
    requires k <= 3 && skip == 2 * k && step == Lift(k, 1)
    requires ip == Lift(k, q) && len == Lift(k, count) && ip + len == Lift(k, q + count) <= MAX4 + 1
    ensures ret == ZonesFrom(k, q, count)
  {
    ret := [];
    var i := 0;
    ghost var j := 0;
    NextStep(k, 0, count);
    while i < len
      invariant i == Lift(k, j) && j <= count
      invariant i < len <==> j < count
      invariant ret == ZonesFrom(k, q, j)
      decreases len - i
    {
      NextAddress(k, q, j, count);
      var name := CutName(FromInt(ip + i), skip, k, q + j);
      OneMoreZone(k, q, j);
      ret := ret + [name];
      NextStep(k, j, count);
      i := i + step;
      j := j + 1;
    }
  }

  /** `self[i].reverseName()[skip:]` */
  method CutName(x: Net, skip: nat, ghost k: nat, ghost q: nat) returns (name: string)
    requires x.version == 4 && x.prefixlen == 32 && 0 <= x.ip <= MAX4
    requires k <= 3 && skip == 2 * k && x.ip == Lift(k, q)
    ensures name == ZoneName(k, q)
  {
    SingleAligned(x);
    name := ReverseName(x);
    SingleName(x);
    CutLabels(k, q, k);
    name := name[skip..];
  }

  lemma OneMoreZone(k: nat, q: nat, j: nat)
    requires k <= 3
    ensures ZonesFrom(k, q, j) + [ZoneName(k, q + j)] == ZonesFrom(k, q, j + 1)
  {
  }

  lemma NextAddress(k: nat, q: nat, j: nat, count: nat)
    requires j < count && Lift(k, q + count) <= MAX4 + 1
    ensures Lift(k, q) + Lift(k, j) == Lift(k, q + j) && 0 <= Lift(k, q + j) <= MAX4
    ensures FromInt(Lift(k, q + j)) == Net(Lift(k, q + j), 32, 4)
  {
    LiftSum(k, q, j);
    LiftLess(k, q + j, q + count);
    LiftOrder(k, q + j, 0);
  }

  lemma SingleAligned(x: Net)
    requires x.version == 4 && x.prefixlen == 32 && 0 <= x.ip <= MAX4
    ensures Aligned(x)
  {
    IPRoundTrip.AddressLimits();
  }

  lemma NextStep(k: nat, j: nat, count: nat)
    ensures Lift(k, j + 1) == Lift(k, j) + Lift(k, 1) && Lift(k, 1) > 0
    ensures Lift(k, j) < Lift(k, count) <==> j < count
    ensures Lift(k, j + 1) < Lift(k, count) <==> j + 1 < count
    ensures Lift(k, 0) == 0
  {
    LiftSum(k, j, 1);
    PositiveLift(k, 1);
    LiftSum(k, 0, 0);
    LiftLess(k, j, count);
    LiftLess(k, j + 1, count);
  }

  lemma LiftLess(k: nat, x: nat, y: nat)
    ensures Lift(k, x) < Lift(k, y) <==> x < y
  {
    if x < y {
      LiftSum(k, x, y - x);
      PositiveLift(k, y - x);
    } else if y < x {
      LiftSum(k, y, x - y);
      PositiveLift(k, x - y);
    }
  }

  method ReverseNamesOf(n: Net) returns (ret: seq<string>)
    requires Aligned(n) && n.version == 4
    ensures ret == ReverseNames(n)
  {
    ghost var k, q, count := ListedZones(n);
    LengthBranches(n);
    assert Lift(1, 1) == 256 && Lift(2, 1) == 65536 && Lift(3, 1) == 0x100_0000;
    if Len(n) < 256 {
      ret := NamesEvery(n.ip, Len(n), 1, 0, k, q, count);
    } else if Len(n) < 65536 {
      ret := NamesEvery(n.ip, Len(n), 256, 2, k, q, count);
    } else if Len(n) < 0x100_0000 {
      ret := NamesEvery(n.ip, Len(n), 65536, 4, k, q, count);
    } else {
      ret := NamesEvery(n.ip, Len(n), 0x100_0000, 6, k, q, count);
    }
  }

  /** The branch on the size of the network decides how many bytes the zones leave out. */
  lemma LengthBranches(n: Net)
    requires Aligned(n) && n.version == 4
    ensures ZoneBytes(n) == if Len(n) < 256 then 0 else if Len(n) < 65536 then 1
                            else if Len(n) < 0x100_0000 then 2 else 3
  {
    var z := 32 - n.prefixlen;
    Pow2Of32();
    PowerOrder(z, 8);
    PowerOrder(z, 16);
    PowerOrder(z, 24);
  }

  lemma PowerOrder(a: nat, b: nat)
    ensures Pow2(a) < Pow2(b) <==> a < b
  {
    if a < b {
      Pow2Mono(a, b);
    } else {
      Pow2Mono(b, a);
    }
  }
}
