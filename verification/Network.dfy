/** Networks as values: masks, alignment checks, containment, order and aggregation of
    the classes IPint and IP in IPy.py. */
module Network {
  import opened Prelude
  import opened Bits

  /** The fields ip, _prefixlen and _ipversion of an IPint. */
  datatype Net = Net(ip: int, prefixlen: int, version: int)

  datatype NetError = UnknownVersion | BadPrefixlen | NegativeAddress | PrefixlensDiffer | VersionsDiffer

  predicate KnownVersion(version: int) {
    version == 4 || version == 6
  }

  function BitsOf(version: int): (n: nat)
    requires KnownVersion(version)
  {
    if version == 4 then 32 else 128
  }

  /** A prefix length that fits, an address in range, and no bits below the prefix. */
  ghost predicate Aligned(n: Net) {
    && KnownVersion(n.version) && 0 <= n.prefixlen <= BitsOf(n.version)
    && 0 <= n.ip < Pow2(BitsOf(n.version))
    && Divisible(n.ip, BitsOf(n.version) - n.prefixlen)
  }

  /** `len()` */
  function Len(n: Net): (len: int)
    requires KnownVersion(n.version) && n.prefixlen <= BitsOf(n.version)
    ensures len > 0
  {
    Pow2(BitsOf(n.version) - n.prefixlen)
  }

  /** The address x belongs to the network. */
  ghost predicate Covers(n: Net, x: int)
    requires KnownVersion(n.version) && n.prefixlen <= BitsOf(n.version)
  {
    n.ip <= x < n.ip + Len(n)
  }

  // ---------------------------------------------------------------- masks and alignment

  /** `netmask()` */
  function Netmask(n: Net): int
    requires KnownVersion(n.version) && 0 <= n.prefixlen <= BitsOf(n.version)
  {
    ShiftLeft(Pow2(n.prefixlen) - 1, BitsOf(n.version) - n.prefixlen)
  }

  /** `_prefixlenToNetmask`; shifting by a negative count is a ValueError too. */
  function PrefixlenToNetmask(prefixlen: int, version: int): Result<int, NetError> {
    if prefixlen == 0 then Ok(0)
    else if prefixlen < 0 then Raised(BadPrefixlen)
    else if !KnownVersion(version) then Raised(UnknownVersion)
    else if prefixlen > BitsOf(version) then Raised(BadPrefixlen)
    else Ok(ShiftLeft(ShiftLeft(2, prefixlen - 1) - 1, BitsOf(version) - prefixlen))
  }

  lemma MaskIsBlock(p: nat, version: int)
    requires KnownVersion(version) && 1 <= p <= BitsOf(version)
    ensures PrefixlenToNetmask(p, version) == Ok(Block(p, BitsOf(version) - p))
    ensures Block(p, BitsOf(version) - p) > 0
  {
    ShiftIsProduct(2, p - 1);
    BlockShape(p, BitsOf(version) - p);
  }

  /** The two mask formulas agree, and the mask covers the network's fixed bits. */
  lemma MaskFormulasAgree(n: Net)
    requires KnownVersion(n.version) && 0 <= n.prefixlen <= BitsOf(n.version)
    ensures PrefixlenToNetmask(n.prefixlen, n.version) == Ok(Netmask(n))
    ensures Netmask(n) == Pow2(BitsOf(n.version)) - Len(n)
  {
    MaskOfPrefix(n.prefixlen, n.version);
    BlockIsDifference(n.prefixlen, BitsOf(n.version) - n.prefixlen);
  }

  lemma MaskOfPrefix(p: nat, version: int)
    requires KnownVersion(version) && p <= BitsOf(version)
    ensures PrefixlenToNetmask(p, version) == Ok(Block(p, BitsOf(version) - p))
  {
    if p == 0 {
      ShiftIsProduct(0, BitsOf(version));
    } else {
      MaskIsBlock(p, version);
    }
  }

  lemma BlockIsDifference(p: nat, z: nat)
    ensures Block(p, z) == Pow2(p + z) - Pow2(z)
  {
    ShiftIsProduct(Pow2(p) - 1, z);
    Pow2Add(p, z);
    assert (Pow2(p) - 1) * Pow2(z) == Pow2(p) * Pow2(z) - Pow2(z);
  }

  /** For IPv4 the mask of a prefix length is read back to it; of the other masks
      that are accepted none has its top bit set. */
  lemma NetmaskInverse(netmask: int, p: nat)
    requires 1 <= p <= 32
    ensures PrefixlenToNetmask(p, 4) == Ok(netmask)
        <==> NetmaskToPrefixlen(netmask) == Ok(p) && Pow2(31) <= netmask < Pow2(32)
  {
    MaskIsBlock(p, 4);
    TopBlock(netmask, p, 32);
  }

  /** The block that fills the upper p of n bits. */
  lemma TopBlock(netmask: int, p: nat, n: nat)
    requires 1 <= p <= n
    ensures netmask == Block(p, n - p) <==> NetmaskToPrefixlen(netmask) == Ok(p) && Pow2(n - 1) <= netmask < Pow2(n)
  {
    if netmask == Block(p, n - p) {
      BlockShape(p, n - p);
      BitLengthBounds(netmask);
    } else if Pow2(n - 1) <= netmask < Pow2(n) {
      BitLengthUnique(netmask, n);
    }
  }

  /** `_checkNetaddrWorksWithPrefixlen` */
  function CheckNetaddr(net: int, prefixlen: int, version: int): Result<bool, NetError> {
    match PrefixlenToNetmask(prefixlen, version)
    case Raised(e) => Raised(e)
    case Ok(mask) => if mask < 0 then Ok(false) else Ok(And(net, mask) == net)
  }

  /** `_checkPrefix`: None is Python's None. */
  function CheckPrefix(ip: int, prefixlen: int, version: int): Result<Option<bool>, NetError> {
    if !KnownVersion(version) then Raised(UnknownVersion)
    else if prefixlen < 0 || prefixlen > BitsOf(version) then Ok(None)
    else if ip < 0 then Raised(NegativeAddress)
    else
      var zbits := if ip == 0 then BitsOf(version) + 1 else TrailingZeros(ip);
      Ok(Some(!(zbits < BitsOf(version) - prefixlen)))
  }

  /** The bit-and check accepts exactly the aligned networks. */
  lemma CheckNetaddrMeaning(net: int, prefixlen: int, version: int)
    ensures CheckNetaddr(net, prefixlen, version) == Ok(true) && KnownVersion(version)
       <==> Aligned(Net(net, prefixlen, version))
    ensures CheckNetaddr(net, prefixlen, version).Raised?
       <==> prefixlen < 0 || (prefixlen > 0 && (!KnownVersion(version) || prefixlen > BitsOf(version)))
  {
    if KnownVersion(version) && 0 <= prefixlen <= BitsOf(version) {
      var z := BitsOf(version) - prefixlen;
      if prefixlen == 0 {
        assert And(net, 0) == 0;
        ZeroDivisible(z);
        if Aligned(Net(net, 0, version)) {
          SmallDivisible(net, z);
        }
      } else {
        MaskIsBlock(prefixlen, version);
        AndBlock(net, prefixlen, z);
      }
    }
  }

  /** The trailing-zero check asks for divisibility, so on addresses in range the two
      checks agree. */
  lemma AlignmentChecksAgree(ip: nat, prefixlen: int, version: int)
    requires KnownVersion(version) && 0 <= prefixlen <= BitsOf(version)
    ensures CheckPrefix(ip, prefixlen, version) == Ok(Some(ip % Pow2(BitsOf(version) - prefixlen) == 0))
    ensures CheckNetaddr(ip, prefixlen, version)
         == Ok(CheckPrefix(ip, prefixlen, version) == Ok(Some(true)) && ip < Pow2(BitsOf(version)))
  {
    var z := BitsOf(version) - prefixlen;
    CheckNetaddrMeaning(ip, prefixlen, version);
    if ip > 0 {
      TrailingZerosDivide(ip, z);
    } else {
      ZeroDivisible(z);
    }
    DivisibleMeaning(ip, z);
  }

  /** The trailing-zero check on all inputs: an error for an unknown version, None for a
      prefix length that does not fit, an error for a negative address. */
  lemma CheckPrefixMeaning(ip: int, prefixlen: int, version: int)
    ensures CheckPrefix(ip, prefixlen, version) == Raised(UnknownVersion) <==> version != 4 && version != 6
    ensures CheckPrefix(ip, prefixlen, version) == Ok(None)
       <==> (version == 4 || version == 6) && (prefixlen < 0 || prefixlen > (if version == 4 then 32 else 128))
    ensures (version == 4 || version == 6) && 0 <= prefixlen <= (if version == 4 then 32 else 128) ==>
              CheckPrefix(ip, prefixlen, version)
                == if ip < 0 then Raised(NegativeAddress) else Ok(Some(ip % Pow2((if version == 4 then 32 else 128) - prefixlen) == 0))
  {
    if (version == 4 || version == 6) && 0 <= prefixlen <= BitsOf(version) && ip >= 0 {
      AlignmentChecksAgree(ip, prefixlen, version);
    }
  }

  // ---------------------------------------------------------------- containment

  /** `item in self` */
  function Contains(self: Net, item: Net): bool
    requires KnownVersion(self.version) && self.prefixlen <= BitsOf(self.version)
    requires KnownVersion(item.version) && item.prefixlen <= BitsOf(item.version)
  {
    item.ip >= self.ip && item.ip < self.ip + Len(self) - Len(item) + 1
  }

  /** `self.overlaps(item)` */
  function Overlaps(self: Net, item: Net): int
    requires KnownVersion(self.version) && self.prefixlen <= BitsOf(self.version)
    requires KnownVersion(item.version) && item.prefixlen <= BitsOf(item.version)
  {
    if item.ip >= self.ip && item.ip < self.ip + Len(self) then 1
    else if self.ip >= item.ip && self.ip < item.ip + Len(item) then -1
    else 0
  }

  /** Containment is inclusion of the address sets. */
  lemma ContainsIsSubset(self: Net, item: Net)
    requires KnownVersion(self.version) && self.prefixlen <= BitsOf(self.version)
    requires KnownVersion(item.version) && item.prefixlen <= BitsOf(item.version)
    ensures Contains(self, item) <==> forall x :: Covers(item, x) ==> Covers(self, x)
  {
    assert Covers(item, item.ip) && Covers(item, item.ip + Len(item) - 1);
  }

  lemma ProductOrder(m: int, a: int, b: int)
    requires m > 0 && a <= b
    ensures m * a <= m * b
  {
    assert m * (b - a) >= 0;
    assert m * (b - a) == m * b - m * a;
  }

  lemma Successor(m: int, a: int)
    ensures m * (a + 1) == m * a + m
  {
  }

  lemma BlockBounds(m: int, lo: int, i: int, hi: int, x: int)
    requires m > 0 && m * i <= x < m * i + m && m * lo <= x < m * hi
    ensures m * lo <= m * i && m * i + m <= m * hi
  {
    Successor(m, i);
    if i < lo {
      ProductOrder(m, i + 1, lo);
    } else {
      ProductOrder(m, lo, i);
    }
    if hi < i + 1 {
      ProductOrder(m, hi, i);
    } else {
      ProductOrder(m, i + 1, hi);
    }
  }

  lemma MultipleOf(x: int, m: int)
    requires m > 0 && x % m == 0
    ensures x == m * (x / m)
  {
  }

  lemma Regroup(m: int, k: int, j: int)
    ensures (m * k) * j == m * (k * j) && m * (k * j) + m * k == m * (k * j + k)
  {
  }

  /** Of two blocks sized by powers of two and aligned to their sizes, a common address
      puts the smaller inside the larger. */
  lemma BlocksNest(bigIp: int, d: nat, smallIp: int, z: nat, x: int)
    requires z <= d && Divisible(bigIp, d) && Divisible(smallIp, z)
    requires bigIp <= x < bigIp + Pow2(d) && smallIp <= x < smallIp + Pow2(z)
    ensures bigIp <= smallIp && smallIp + Pow2(z) <= bigIp + Pow2(d)
  {
    var m, k := Pow2(z), Pow2(d - z);
    Pow2Add(z, d - z);
    DivisibleMeaning(smallIp, z);
    DivisibleMeaning(bigIp, d);
    MultipleOf(smallIp, m);
    MultipleOf(bigIp, m * k);
    var i, j := smallIp / m, bigIp / (m * k);
    Regroup(m, k, j);
    BlockBounds(m, k * j, i, k * j + k, x);
  }

  /** Two aligned blocks with a common address: the larger one contains the smaller. */
  lemma LargerContains(big: Net, small: Net, x: int)
    requires Aligned(big) && Aligned(small) && Covers(big, x) && Covers(small, x)
    requires BitsOf(big.version) - big.prefixlen >= BitsOf(small.version) - small.prefixlen
    ensures Contains(big, small)
  {
    BlocksNest(big.ip, BitsOf(big.version) - big.prefixlen, small.ip, BitsOf(small.version) - small.prefixlen, x);
  }

  /** Networks never overlap partially, and `overlaps` tells which one is the larger. */
  lemma NetworksAreLaminar(a: Net, b: Net)
    requires Aligned(a) && Aligned(b)
    ensures (exists x :: Covers(a, x) && Covers(b, x)) <==> Contains(a, b) || Contains(b, a)
    ensures Overlaps(a, b) != 0 <==> Contains(a, b) || Contains(b, a)
    ensures Overlaps(a, b) == 1 <==> Contains(a, b) || (Contains(b, a) && a.ip == b.ip)
    ensures Overlaps(a, b) == -1 <==> Contains(b, a) && a.ip != b.ip
  {
    if x :| Covers(a, x) && Covers(b, x) {
      if BitsOf(a.version) - a.prefixlen >= BitsOf(b.version) - b.prefixlen {
        LargerContains(a, b, x);
      } else {
        LargerContains(b, a, x);
      }
    }
    assert Covers(a, a.ip) && Covers(b, b.ip);
    if Overlaps(a, b) == 1 {
      assert Covers(a, b.ip);
    }
    if Overlaps(a, b) == -1 {
      assert Covers(b, a.ip);
    }
  }

  // ---------------------------------------------------------------- order and aggregation

  /** `__cmp__` */
  function Cmp(self: Net, other: Net): int {
    if self.prefixlen < other.prefixlen then other.prefixlen - self.prefixlen
    else if self.prefixlen > other.prefixlen then (self.prefixlen - other.prefixlen) * -1
    else if self.ip < other.ip then -1
    else if self.ip > other.ip then 1
    else 0
  }

  /** Comparing sorts by prefix length, the longer ones first, then by address; networks
      compare equal exactly if they differ in nothing but the version. */
  lemma CmpIsOrder(a: Net, b: Net, c: Net)
    ensures Cmp(a, b) == 0 <==> a.ip == b.ip && a.prefixlen == b.prefixlen
    ensures Cmp(a, b) < 0 <==> a.prefixlen > b.prefixlen || (a.prefixlen == b.prefixlen && a.ip < b.ip)
    ensures Cmp(a, b) > 0 <==> Cmp(b, a) < 0
    ensures Cmp(a, b) <= 0 && Cmp(b, c) <= 0 ==> Cmp(a, c) <= 0
  {
  }

  /** `IP(n)` of an integer: the version is guessed from the size. */
  function FromInt(n: int): Net {
    if n < 0x1_0000_0000 then Net(n, 32, 4) else Net(n, 128, 6)
  }

  /** `self + other`. The guard on prefix lengths below 1 compares a method with a
      number and never fires. */
  function Add(self: Net, other: Net): Result<Net, NetError>
    decreases if Cmp(self, other) > 0 then 1 else 0
  {
    if self.prefixlen != other.prefixlen then Raised(PrefixlensDiffer)
    else if self.version != other.version then Raised(VersionsDiffer)
    else if Cmp(self, other) > 0 then Add(other, self)
    else Ok(FromInt(self.ip).(prefixlen := self.prefixlen - 1))
  }

  /** The union of two networks is the set of addresses of the result. */
  ghost predicate IsUnion(r: Net, a: Net, b: Net)
    requires KnownVersion(r.version) && r.prefixlen <= BitsOf(r.version)
    requires KnownVersion(a.version) && a.prefixlen <= BitsOf(a.version)
    requires KnownVersion(b.version) && b.prefixlen <= BitsOf(b.version)
  {
    forall x :: Covers(r, x) <==> Covers(a, x) || Covers(b, x)
  }

  function Lower(a: Net, b: Net): int {
    if a.ip <= b.ip then a.ip else b.ip
  }

  /** Adding two networks of one size and version, in either order: the result keeps
      the version unless the lower address of two IPv6 networks looks like IPv4; it is
      their union exactly when they are neighbours, and then a proper network exactly
      when the lower one is the lower half of a block. With the wrong version its prefix
      length does not fit, or it is a proper network but not their union. */
  lemma AddIsUnion(a: Net, b: Net)
    requires Aligned(a) && Aligned(b) && a.prefixlen == b.prefixlen >= 1 && a.version == b.version
    ensures Add(a, b).Ok? && Add(b, a) == Add(a, b)
    ensures var r, low := Add(a, b).value, Lower(a, b);
            && r.ip == low && r.prefixlen == a.prefixlen - 1
            && (r.version == a.version <==> a.version == 4 || low >= 0x1_0000_0000)
            && (r.version == a.version ==>
                 && (IsUnion(r, a, b) <==> a.ip == b.ip + Len(a) || b.ip == a.ip + Len(a))
                 && (Aligned(r) <==> low % (2 * Len(a)) == 0))
            && (r.version != a.version ==> r.version == 4 && (r.prefixlen > 32 || (Aligned(r) && !IsUnion(r, a, b))))
  {
    AddResult(a, b);
    var r := Add(a, b).value;
    if r.version == a.version {
      UnionOfNeighbours(r, a, b);
      AlignedResult(r, a);
    } else if r.prefixlen <= 32 {
      WrongVersion(r, a, b);
    }
  }

  lemma AddResult(a: Net, b: Net)
    requires Aligned(a) && Aligned(b) && a.prefixlen == b.prefixlen && a.version == b.version
    ensures var low := Lower(a, b);
            && Add(b, a) == Add(a, b)
            && Add(a, b) == Ok(Net(low, a.prefixlen - 1, if low < 0x1_0000_0000 then 4 else 6))
            && (a.version == 4 ==> low < 0x1_0000_0000)
  {
    Pow2Of32();
  }

  /** Two large IPv6 networks at the bottom of the address space: the sum is taken for a
      small IPv4 network. */
  lemma WrongVersion(r: Net, a: Net, b: Net)
    requires Aligned(a) && Aligned(b) && 1 <= a.prefixlen == b.prefixlen <= 33 && a.version == b.version == 6
    requires r == Net(Lower(a, b), a.prefixlen - 1, 4) && Lower(a, b) < 0x1_0000_0000
    ensures Aligned(r) && !IsUnion(r, a, b)
  {
    var low := if a.ip <= b.ip then a else b;
    SmallMultiple(low.ip, 128 - a.prefixlen);
    ZeroAligned(r);
    ShorterBlock(r, low);
    TooSmall(r, a, b, low);
  }

  lemma ZeroAligned(r: Net)
    requires r.ip == 0 && KnownVersion(r.version) && 0 <= r.prefixlen <= BitsOf(r.version)
    ensures Aligned(r)
  {
    ZeroDivisible(BitsOf(r.version) - r.prefixlen);
  }

  lemma ShorterBlock(r: Net, low: Net)
    requires r.version == 4 && low.version == 6 && r.prefixlen == low.prefixlen - 1 <= 32
    ensures Len(r) < Len(low)
  {
    Pow2Strict(32 - r.prefixlen, 128 - low.prefixlen);
  }

  /** A block that begins like one of the networks but is smaller is not their union. */
  lemma TooSmall(r: Net, a: Net, b: Net, low: Net)
    requires Aligned(a) && Aligned(b) && (low == a || low == b)
    requires KnownVersion(r.version) && r.prefixlen <= BitsOf(r.version) && r.ip == low.ip && Len(r) < Len(low)
    ensures !IsUnion(r, a, b)
  {
    var x := r.ip + Len(r);
    assert Covers(low, x) && !Covers(r, x);
  }

  lemma SmallMultiple(ip: int, z: nat)
    requires 0 <= ip < 0x1_0000_0000 && z >= 32 && Divisible(ip, z)
    ensures ip == 0
  {
    Pow2Of32();
    Pow2Mono(32, z);
    SmallDivisible(ip, z);
  }

  lemma Pow2Strict(a: nat, b: nat)
    requires a < b
    ensures Pow2(a) < Pow2(b)
  {
    Pow2Mono(a, b - 1);
  }

  /** The guard against prefix lengths below 1 never fires: two networks that fill the
      address space, of either version, add up to a prefix length of -1. */
  lemma AddGuard(a: Net, b: Net)
    requires Aligned(a) && Aligned(b) && a.prefixlen == b.prefixlen && a.version == b.version
    ensures Add(a, b).Ok? && Add(a, b).value.prefixlen == a.prefixlen - 1
    ensures Add(a, b).value.prefixlen >= 0 <==> a.prefixlen >= 1
    ensures a.prefixlen == 0 ==> Add(a, b) == Ok(Net(0, -1, 4)) && !Aligned(Add(a, b).value)
  {
    AddResult(a, b);
    if a.prefixlen == 0 {
      SmallDivisible(a.ip, BitsOf(a.version));
      SmallDivisible(b.ip, BitsOf(a.version));
    }
  }

  lemma AlignedResult(r: Net, a: Net)
    requires Aligned(a) && a.prefixlen >= 1 && r.version == a.version && r.prefixlen == a.prefixlen - 1
    requires 0 <= r.ip < Pow2(BitsOf(a.version))
    ensures Len(r) == 2 * Len(a)
    ensures Aligned(r) <==> r.ip % (2 * Len(a)) == 0
  {
    DivisibleMeaning(r.ip, BitsOf(a.version) - r.prefixlen);
  }

  lemma Pow2Of32()
    ensures Pow2(8) == 0x100 && Pow2(16) == 0x1_0000 && Pow2(24) == 0x100_0000 && Pow2(32) == 0x1_0000_0000
  {
    assert Pow2(8) == 256 && Pow2(16) == 65536 && Pow2(24) == 0x100_0000;
  }

  lemma UnionOfNeighbours(r: Net, a: Net, b: Net)
    requires Aligned(a) && Aligned(b) && a.prefixlen == b.prefixlen >= 1 && a.version == b.version == r.version
    requires r.ip == (if a.ip <= b.ip then a.ip else b.ip) && r.prefixlen == a.prefixlen - 1
    ensures Len(r) == 2 * Len(a)
    ensures IsUnion(r, a, b) <==> a.ip == b.ip + Len(a) || b.ip == a.ip + Len(a)
  {
    var top := r.ip + Len(r) - 1;
    var middle := r.ip + Len(a);
    if IsUnion(r, a, b) {
      assert Covers(r, top) && Covers(r, middle);
      assert Covers(a, top) || Covers(b, top);
      assert Covers(a, middle) || Covers(b, middle);
    }
  }
}
