/** Bit arithmetic of IPy.py on Python's unbounded integers: `x >> 1` is `x / 2`
    rounded down, `x & 1` is `x % 2`, for negative `x` as well. */
module Bits {
  import opened Prelude

  datatype BitError = NegativeNumber | NotAPrefixMask | LoopsForever

  function Pow2(k: nat): (p: nat)
    ensures p > 0
  {
    if k == 0 then 1 else 2 * Pow2(k - 1)
  }

  /** `x << k` */
  function ShiftLeft(x: int, k: nat): int {
    if k == 0 then x else 2 * ShiftLeft(x, k - 1)
  }

  /** `x & m`, two's complement for negative x. */
  function And(x: int, m: nat): nat
    decreases m
  {
    if m == 0 then 0
    else 2 * And(x / 2, m / 2) + (if x % 2 == 1 && m % 2 == 1 then 1 else 0)
  }

  /** The number of binary digits of a positive number, 0 otherwise. */
  function BitLength(n: int): nat {
    if n <= 0 then 0 else 1 + BitLength(n / 2)
  }

  /** The number of zero bits below the lowest one bit. */
  function TrailingZeros(n: nat): nat {
    if n == 0 || n % 2 == 1 then 0 else 1 + TrailingZeros(n / 2)
  }

  /** `k` one bits followed by `z` zero bits. */
  function Block(k: nat, z: nat): int {
    ShiftLeft(Pow2(k) - 1, z)
  }

  /** 2 to the power z divides x: its z lowest bits are zero. */
  predicate Divisible(x: int, z: nat)
    decreases z
  {
    z == 0 || (x % 2 == 0 && Divisible(x / 2, z - 1))
  }

  // ---------------------------------------------------------------- arithmetic

  lemma {:induction false} ShiftIsProduct(x: int, k: nat)
    ensures ShiftLeft(x, k) == x * Pow2(k)
  {
    if k > 0 {
      ShiftIsProduct(x, k - 1);
    }
  }

  lemma {:induction false} Pow2Add(a: nat, b: nat)
    ensures Pow2(a + b) == Pow2(a) * Pow2(b)
  {
    if a > 0 {
      Pow2Add(a - 1, b);
      assert Pow2(a) * Pow2(b) == 2 * (Pow2(a - 1) * Pow2(b));
    }
  }

  lemma {:induction false} Pow2Mono(a: nat, b: nat)
    requires a <= b
    ensures Pow2(a) <= Pow2(b)
    ensures a < b ==> 2 * Pow2(a) <= Pow2(b)
  {
    if a < b {
      Pow2Mono(a, b - 1);
    }
  }

  /** Quotient and remainder are unique. */
  lemma DivModUnique(x: int, m: int, q: int, r: int)
    requires m > 0 && 0 <= r < m && x == m * q + r
    ensures x / m == q && x % m == r
  {
    var q', r' := x / m, x % m;
    assert x == m * q' + r';
    assert m * (q - q') == r' - r;
    if q > q' {
      LeastMultiple(m, q - q');
    } else if q < q' {
      assert m * (q' - q) == r - r';
      LeastMultiple(m, q' - q);
    }
  }

  lemma LeastMultiple(m: int, d: int)
    requires m > 0 && d >= 1
    ensures m * d >= m
  {
  }

  /** Divisibility by a power of two, one bit at a time. */
  lemma AlignedStep(x: int, z: nat)
    requires z > 0
    ensures x % Pow2(z) == 0 <==> x % 2 == 0 && (x / 2) % Pow2(z - 1) == 0
  {
    var m := Pow2(z - 1);
    var y := x / 2;
    var q, r := y / m, y % m;
    assert y == m * q + r;
    assert 2 * (m * q) == (2 * m) * q;
    DivModUnique(x, 2 * m, q, 2 * r + x % 2);
  }

  lemma {:induction false} DivisibleMeaning(x: int, z: nat)
    ensures Divisible(x, z) <==> x % Pow2(z) == 0
    decreases z
  {
    if z > 0 {
      AlignedStep(x, z);
      DivisibleMeaning(x / 2, z - 1);
    }
  }

  lemma {:induction false} ZeroDivisible(z: nat)
    ensures Divisible(0, z)
  {
    if z > 0 {
      ZeroDivisible(z - 1);
    }
  }

  /** A multiple that is smaller than the power is zero. */
  lemma {:induction false} SmallDivisible(x: int, z: nat)
    requires 0 <= x < Pow2(z) && Divisible(x, z)
    ensures x == 0
    decreases z
  {
    if z > 0 {
      SmallDivisible(x / 2, z - 1);
    }
  }

  lemma {:induction false} DivisibleLess(x: int, z: nat, y: nat)
    requires y <= z && Divisible(x, z)
    ensures Divisible(x, y)
    decreases z
  {
    if y > 0 {
      DivisibleLess(x / 2, z - 1, y - 1);
    }
  }

  // ---------------------------------------------------------------- masks

  lemma {:induction false} AndOnes(x: int, p: nat)
    ensures And(x, Pow2(p) - 1) == x <==> 0 <= x < Pow2(p)
    decreases p
  {
    if p > 0 {
      AndOnes(x / 2, p - 1);
      OnesHalf(p);
    }
  }

  lemma OnesHalf(p: nat)
    requires p > 0
    ensures Pow2(p) - 1 > 0 && (Pow2(p) - 1) / 2 == Pow2(p - 1) - 1 && (Pow2(p) - 1) % 2 == 1
  {
  }

  /** Masking with a block of ones keeps a number exactly when the number fits below
      the block's top and is a multiple of the block's lowest bit. */
  lemma {:induction false} AndBlock(x: int, p: nat, z: nat)
    requires p >= 1
    ensures Block(p, z) > 0
    ensures And(x, Block(p, z)) == x <==> 0 <= x < Pow2(p + z) && Divisible(x, z)
    decreases z
  {
    if z == 0 {
      AndOnes(x, p);
    } else {
      AndBlock(x / 2, p, z - 1);
      assert Block(p, z) == 2 * Block(p, z - 1);
      assert Pow2(p + z) == 2 * Pow2(p + z - 1);
    }
  }

  // ---------------------------------------------------------------- bit counts

  lemma {:induction false} BitLengthBounds(n: int)
    ensures n <= 0 ==> BitLength(n) == 0
    ensures n > 0 ==> BitLength(n) >= 1 && Pow2(BitLength(n) - 1) <= n < Pow2(BitLength(n))
  {
    if n > 0 {
      BitLengthBounds(n / 2);
    }
  }

  lemma {:induction false} BitLengthUnique(n: int, k: nat)
    requires k >= 1 && Pow2(k - 1) <= n < Pow2(k)
    ensures BitLength(n) == k
  {
    if k > 1 {
      BitLengthUnique(n / 2, k - 1);
    } else {
      assert BitLength(0) == 0;
    }
  }

  /** At least z trailing zeros of a positive number: z-fold divisibility. */
  lemma {:induction false} TrailingZerosDivide(n: nat, z: nat)
    requires n > 0
    ensures TrailingZeros(n) >= z <==> Divisible(n, z)
  {
    if z > 0 && n % 2 == 0 {
      TrailingZerosDivide(n / 2, z - 1);
    }
  }

  lemma {:induction false} BlockShape(k: nat, z: nat)
    requires k >= 1
    ensures Block(k, z) > 0
    ensures TrailingZeros(Block(k, z)) == z && BitLength(Block(k, z)) == k + z
  {
    if z > 0 {
      BlockShape(k, z - 1);
    } else {
      BitLengthUnique(Pow2(k) - 1, k);
    }
  }

  method Count1Bits(num: int) returns (ret: nat)
    ensures num <= 0 ==> ret == 0
    ensures num > 0 ==> ret >= 1 && Pow2(ret - 1) <= num < Pow2(ret)
    ensures ret == BitLength(num)
  {
    var n := num;
    ret := 0;
    while n > 0
      invariant ret + BitLength(n) == BitLength(num)
    {
      n := n / 2;
      ret := ret + 1;
    }
    BitLengthBounds(num);
  }

  method Count0Bits(num: int) returns (r: Result<nat, BitError>)
    ensures num < 0 <==> r == Raised(NegativeNumber)
    ensures num == 0 ==> r == Ok(0)
    ensures num > 0 ==> r.Ok? && num % Pow2(r.value) == 0 && num % Pow2(r.value + 1) != 0
    ensures num >= 0 ==> r == Ok(TrailingZeros(num))
  {
    if num < 0 {
      return Raised(NegativeNumber);
    }
    var n := num;
    var ret := 0;
    while n > 0
      invariant n >= 0 && (num > 0 ==> n > 0)
      invariant ret + TrailingZeros(n) == TrailingZeros(num)
    {
      if n % 2 == 1 {
        break;
      }
      n := n / 2;
      ret := ret + 1;
    }
    if num > 0 {
      TrailingZerosDivide(num, ret);
      TrailingZerosDivide(num, ret + 1);
      DivisibleMeaning(num, ret);
      DivisibleMeaning(num, ret + 1);
    }
    return Ok(ret);
  }

  // ---------------------------------------------------------------- netmask to prefix length

  /** What `_netmaskToPrefixlen` returns, and its two failures. */
  function NetmaskToPrefixlen(netmask: int): Result<nat, BitError> {
    if netmask < 0 then Raised(NegativeNumber)
    else if netmask == 0 then Raised(LoopsForever)
    else
      var z, top := TrailingZeros(netmask), BitLength(netmask);
      if top >= z && netmask == Block(top - z, z) then Ok(top - z) else Raised(NotAPrefixMask)
  }

  /** Bit i, two's complement for negative x. */
  function Bit(x: int, i: nat): int
    decreases i
  {
    if i == 0 then x % 2 else Bit(x / 2, i - 1)
  }

  lemma {:induction false} BitMeaning(x: int, i: nat)
    ensures Bit(x, i) == x / Pow2(i) % 2
    decreases i
  {
    if i > 0 {
      BitMeaning(x / 2, i - 1);
      HalfThenDivide(x, Pow2(i - 1));
    }
  }

  lemma HalfThenDivide(x: int, m: nat)
    requires m > 0
    ensures x / 2 / m == x / (2 * m)
  {
    var q, r := x / 2 / m, x / 2 % m;
    assert x / 2 == m * q + r;
    assert 2 * (m * q) == (2 * m) * q;
    DivModUnique(x, 2 * m, q, 2 * r + x % 2);
  }

  lemma {:induction false} ZeroBits(i: nat)
    ensures Bit(0, i) == 0
  {
    if i > 0 {
      ZeroBits(i - 1);
    }
  }

  /** Bit by bit, `x & m` has a one where both have one. */
  lemma {:induction false} AndBits(x: int, m: nat, i: nat)
    ensures Bit(And(x, m), i) == 1 <==> Bit(x, i) == 1 && Bit(m, i) == 1
    decreases i
  {
    if m == 0 {
      ZeroBits(i);
    } else if i > 0 {
      AndBits(x / 2, m / 2, i - 1);
      assert And(x, m) / 2 == And(x / 2, m / 2);
    }
  }

  /** Among the lowest `masklen` bits no zero follows a one. */
  ghost predicate OnesAtTop(netmask: int, masklen: int) {
    forall i, j :: 0 <= i < j < masklen && Bit(netmask, i) == 1 ==> Bit(netmask, j) == 1
  }

  /** The number without its k lowest bits. */
  ghost predicate Shifted(x: int, num: int, k: nat) {
    forall i: nat :: Bit(num, i) == Bit(x, k + i)
  }

  lemma ShiftOne(x: int, num: int, k: nat)
    requires Shifted(x, num, k)
    ensures Shifted(x, num / 2, k + 1) && num % 2 == Bit(x, k)
  {
    forall i: nat ensures Bit(num / 2, i) == Bit(x, k + 1 + i) {
      assert Bit(num, i + 1) == Bit(x, k + (i + 1));
    }
    assert Bit(num, 0) == Bit(x, k + 0);
  }

  /** `_checkNetmask`, for every mask and length for which it returns: it accepts the masks
      whose lowest `masklen` bits are zeros below ones. */
  method CheckNetmask(netmask: int, masklen: int) returns (valid: bool)
    requires netmask != 0 || masklen > 0
    ensures valid <==> OnesAtTop(netmask, masklen)
  {
    var num, bits := netmask, masklen;
    ghost var k := 0;
    while num % 2 == 0
      invariant bits == masklen - k && Shifted(netmask, num, k)
      invariant forall i :: 0 <= i < k ==> Bit(netmask, i) == 0
      invariant num == 0 ==> netmask == 0 && bits > 0
      decreases if num == 0 then bits else if num < 0 then -num else num
    {
      ShiftOne(netmask, num, k);
      num := num / 2;
      bits := bits - 1;
      k := k + 1;
      if bits == 0 {
        break;
      }
    }
    valid := OnlyOnes(netmask, masklen, num, bits, k);
  }

  /** The second loop: only ones from bit k on. */
  method OnlyOnes(ghost netmask: int, ghost masklen: int, num0: int, bits0: int, ghost k0: nat) returns (valid: bool)
    requires bits0 == masklen - k0 && Shifted(netmask, num0, k0) && (bits0 > 0 ==> num0 % 2 == 1)
    requires forall i :: 0 <= i < k0 ==> Bit(netmask, i) == 0
    ensures valid <==> OnesAtTop(netmask, masklen)
  {
    var num, bits := num0, bits0;
    ghost var k := k0;
    while bits > 0
      invariant k0 <= k && bits == masklen - k && Shifted(netmask, num, k)
      invariant k == k0 ==> num == num0
      invariant forall i :: k0 <= i < k ==> Bit(netmask, i) == 1
    {
      ShiftOne(netmask, num, k);
      if num % 2 == 0 {
        assert Bit(netmask, k0) == 1 && Bit(netmask, k) == 0;
        return false;
      }
      num := num / 2;
      bits := bits - 1;
      k := k + 1;
    }
    return true;
  }

  /** All bits below k are ones. */
  ghost predicate AllOnes(n: int, k: nat) {
    forall i :: 0 <= i < k ==> Bit(n, i) == 1
  }

  lemma {:induction false} AllOnesValue(n: nat, k: nat)
    requires n < Pow2(k)
    ensures AllOnes(n, k) <==> n == Pow2(k) - 1
  {
    if k > 0 {
      AllOnesValue(n / 2, k - 1);
      AllOnesHalf(n, k);
    }
  }

  lemma AllOnesHalf(n: int, k: nat)
    requires k > 0
    ensures AllOnes(n, k) <==> n % 2 == 1 && AllOnes(n / 2, k - 1)
  {
    forall i | 0 <= i < k - 1 ensures Bit(n / 2, i) == Bit(n, i + 1) {
    }
    if AllOnes(n, k) {
      assert Bit(n, 0) == 1;
      forall i | 0 <= i < k - 1 ensures Bit(n / 2, i) == 1 {
        assert Bit(n, i + 1) == 1;
      }
    }
    if n % 2 == 1 && AllOnes(n / 2, k - 1) {
      forall i | 0 <= i < k ensures Bit(n, i) == 1 {
        assert i > 0 ==> Bit(n / 2, i - 1) == 1;
      }
    }
  }

  lemma OnesAtTopHalf(n: int, k: nat)
    requires n % 2 == 0 && k > 0
    ensures OnesAtTop(n, k) <==> OnesAtTop(n / 2, k - 1)
  {
    if OnesAtTop(n, k) {
      forall i, j | 0 <= i < j < k - 1 && Bit(n / 2, i) == 1 ensures Bit(n / 2, j) == 1 {
        assert Bit(n, i + 1) == 1;
        assert Bit(n, j + 1) == 1;
      }
    }
    if OnesAtTop(n / 2, k - 1) {
      forall i, j | 0 <= i < j < k && Bit(n, i) == 1 ensures Bit(n, j) == 1 {
        assert i > 0 && Bit(n / 2, i - 1) == 1;
        assert Bit(n / 2, j - 1) == 1;
      }
    }
  }

  /** With the length that the caller passes, the masks that are one block of ones. */
  lemma {:induction false} OnesAtTopIsBlock(n: nat)
    requires n > 0
    ensures BitLength(n) > TrailingZeros(n)
    ensures OnesAtTop(n, BitLength(n)) <==> n == Block(BitLength(n) - TrailingZeros(n), TrailingZeros(n))
  {
    if n % 2 == 0 {
      OnesAtTopIsBlock(n / 2);
      OnesAtTopHalf(n, BitLength(n));
    } else {
      BitLengthBounds(n);
      AllOnesValue(n, BitLength(n));
      assert Bit(n, 0) == 1;
    }
  }

  method NetmaskToPrefixlenOf(netmask: int) returns (r: Result<nat, BitError>)
    requires netmask != 0
    ensures r == NetmaskToPrefixlen(netmask)
  {
    var netlen := Count0Bits(netmask);
    if netlen.Raised? {
      return Raised(netlen.error);
    }
    var masklen := Count1Bits(netmask);
    OnesAtTopIsBlock(netmask);
    var valid := CheckNetmask(netmask, masklen);
    if !valid {
      return Raised(NotAPrefixMask);
    }
    return Ok(masklen - netlen.value);
  }

  /** A prefix length comes back exactly when the mask is one block of ones, anywhere
      in the word, and the prefix length is the size of the block. */
  lemma PrefixlenMeaning(netmask: int, k: nat)
    ensures NetmaskToPrefixlen(netmask) == Ok(k) <==> k >= 1 && exists z: nat :: netmask == Block(k, z)
  {
    if k >= 1 && exists z: nat :: netmask == Block(k, z) {
      var z: nat :| netmask == Block(k, z);
      BlockShape(k, z);
    }
    if NetmaskToPrefixlen(netmask) == Ok(k) {
      var z := TrailingZeros(netmask);
      if k == 0 {
        ShiftIsProduct(0, z);
        assert false;
      }
    }
  }

  /** The two failures: a negative number, and any other number but 0 that is no block. */
  lemma NetmaskErrors(netmask: int)
    ensures NetmaskToPrefixlen(netmask) == Raised(NegativeNumber) <==> netmask < 0
    ensures NetmaskToPrefixlen(netmask) == Raised(LoopsForever) <==> netmask == 0
    ensures NetmaskToPrefixlen(netmask) == Raised(NotAPrefixMask)
       <==> netmask > 0 && forall k: nat, z: nat :: k >= 1 ==> netmask != Block(k, z)
  {
    if netmask > 0 {
      var k := if NetmaskToPrefixlen(netmask).Ok? then NetmaskToPrefixlen(netmask).value else 0;
      PrefixlenMeaning(netmask, k);
      forall k: nat, z: nat | k >= 1 && netmask == Block(k, z) ensures NetmaskToPrefixlen(netmask).Ok? {
        PrefixlenMeaning(netmask, k);
      }
    }
  }

  /** The state at the head of the first loop of `_checkNetmask` after k rounds, None
      once the loop has been left. */
  function StripAfter(num: int, bits: int, k: nat): Option<(int, int)>
    decreases k
  {
    if num % 2 != 0 then None
    else if k == 0 then Some((num, bits))
    else if bits - 1 == 0 then None
    else StripAfter(num / 2, bits - 1, k - 1)
  }

  lemma {:induction false} StripZero(bits: int, k: nat)
    requires bits <= 0
    ensures StripAfter(0, bits, k) == Some((0, bits - k))
    decreases k
  {
    if k > 0 {
      StripZero(bits - 1, k - 1);
    }
  }

  lemma {:induction false} StripEnds(num: int, bits: int) returns (k: nat)
    requires num != 0 || bits > 0
    ensures StripAfter(num, bits, k) == None
    decreases if num == 0 then bits else if num < 0 then -num else num
  {
    if num % 2 != 0 {
      k := 0;
    } else if bits - 1 == 0 {
      k := 1;
    } else {
      k := StripEnds(num / 2, bits - 1);
      k := k + 1;
    }
  }

  /** For the mask 0 with a length that is not positive, and in no other case, that loop is
      never left. */
  lemma CheckNetmaskHangs(netmask: int, masklen: int)
    ensures (forall k: nat :: StripAfter(netmask, masklen, k).Some?) <==> netmask == 0 && masklen <= 0
  {
    if netmask == 0 && masklen <= 0 {
      forall k: nat ensures StripAfter(0, masklen, k).Some? {
        StripZero(masklen, k);
      }
    } else {
      var k := StripEnds(netmask, masklen);
    }
  }

  /** The only caller passes 0 as the length of the mask 0. */
  lemma ZeroMaskHangs()
    ensures NetmaskToPrefixlen(0) == Raised(LoopsForever) && BitLength(0) == 0
    ensures forall k: nat :: StripAfter(0, BitLength(0), k).Some?
  {
    CheckNetmaskHangs(0, 0);
  }
}
