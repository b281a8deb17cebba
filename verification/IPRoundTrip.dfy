/** Printing a network and reading the text back: for which networks and notations the
    result is the same network (sections 3.1 of RFC 4632 and 2.3 of RFC 4291). */
module IPRoundTrip {
  import opened Prelude
  import opened PyText
  import opened Groups
  import opened Notation
  import opened Compressed
  import opened Bits
  import opened Network
  import opened IPText

  // ---------------------------------------------------------------- plain addresses

  /** A text without size part that denotes the address. */
  ghost predicate Denotes(base: string, ip: int, version: int) {
    Parse(base) == Ok(Parsed(ip, version)) && '-' !in base && '/' !in base
  }

  lemma DottedDenotes(v: nat)
    requires v <= MAX4
    ensures Denotes(Dotted(v), v, 4)
  {
    ParseDotted(v);
    DottedShape(v);
  }

  lemma ColonsFree(parts: seq<string>, g: seq<nat>)
    requires AllSpell(parts, g)
    ensures '-' !in Join(parts, ':') && '/' !in Join(parts, ':')
  {
    SpelledFree(parts, g, '-');
    SpelledFree(parts, g, '/');
    JoinFree(parts, ':', '-');
    JoinFree(parts, ':', '/');
  }

  lemma HextetsDenote(v: nat)
    requires v <= MAX6
    ensures Denotes(Full(v), v, 6) && Denotes(Colons(GroupsOf(Hextet, v, 8)), v, 6)
  {
    var g := GroupsOf(Hextet, v, 8);
    ParseFull(v);
    FullTextsSpell(g);
    TextsSpell(g);
    ColonsFree(FullTexts(g), g);
    ColonsFree(Texts(g, Hex), g);
  }

  lemma CompressedFree(h: seq<nat>)
    requires IsAddress(h)
    ensures '-' !in Compress(h) && '/' !in Compress(h)
  {
    var pos, len := GapStart(h), GapLength(h);
    TextsSpell(h);
    TextsSpell(h[..pos]);
    TextsSpell(h[pos + len..]);
    ColonsFree(Texts(h, Hex), h);
    ColonsFree(Texts(h[..pos], Hex), h[..pos]);
    ColonsFree(Texts(h[pos + len..], Hex), h[pos + len..]);
  }

  /** Every single IPv6 address: the compressed text is read back exactly when the run cut
      out is not a pair at an end; otherwise it is refused. */
  lemma CompressedRoundTrip(v: nat)
    requires v <= MAX6
    ensures var h := GroupsOf(Hextet, v, 8);
            Parse(Compress(h)) == if EdgePair(h) then Raised(NeedlessGap) else Ok(Parsed(v, 6))
  {
    Limits();
    FromGroupsOf(Hextet, v, 8);
    ParseCompressed(GroupsOf(Hextet, v, 8));
  }

  // ---------------------------------------------------------------- addresses with a size

  lemma InRangeAddress(n: Net)
    requires Aligned(n)
    ensures 0 <= n.ip && (n.version == 4 ==> n.ip <= MAX4) && (n.version == 6 ==> n.ip <= MAX6)
    ensures Print(n.ip, n.version).Ok?
    ensures Denotes(Print(n.ip, n.version).value, n.ip, n.version)
    ensures NormalAddress(n.ip, n.version).Ok?
    ensures Denotes(NormalAddress(n.ip, n.version).value, n.ip, n.version)
  {
    AddressLimits();
    if n.version == 4 {
      DottedDenotes(n.ip);
    } else {
      HextetsDenote(n.ip);
    }
  }

  lemma AddressLimits()
    ensures Pow2(32) == MAX4 + 1 && Pow2(128) == MAX6 + 1
  {
    Pow2Of32();
    Pow2Add(32, 32);
    Pow2Add(64, 64);
  }

  lemma CheckedNetMeaning(n: Net)
    requires KnownVersion(n.version) && 0 <= n.prefixlen <= BitsOf(n.version)
    ensures CheckedNet(n) == if Divisible(n.ip, BitsOf(n.version) - n.prefixlen) && 0 <= n.ip < Pow2(BitsOf(n.version))
                             then Ok(n) else Raised(Misaligned)
    ensures Aligned(n) <==> CheckedNet(n) == Ok(n)
  {
    CheckNetaddrMeaning(n.ip, n.prefixlen, n.version);
  }

  lemma ReadPlain(base: string, n: Net)
    requires Denotes(base, n.ip, n.version) && Aligned(n) && n.prefixlen == BitsOf(n.version)
    ensures ConstructText(base, 0) == Ok(n)
  {
    SplitFree(base, '-');
    SplitFree(base, '/');
    CheckedNetMeaning(n);
  }

  /** One slash and no dash: the two sides are read separately. */
  lemma SplitSlash(base: string, size: string)
    requires '-' !in base && '/' !in base && '-' !in size && '/' !in size
    ensures Split(base + "/" + size, '-') == [base + "/" + size]
    ensures Split(base + "/" + size, '/') == [base, size]
  {
    SplitFree(base + "/" + size, '-');
    SplitHead(base, size, '/');
    SplitFree(size, '/');
  }

  lemma ReadSized(base: string, size: string, part: SizePart, n: Net)
    requires Denotes(base, n.ip, n.version) && '-' !in size && '/' !in size
    requires SlashSize(size) == Ok(part) && ResolveSize(part, n.version) == Ok(n.prefixlen)
    ensures ConstructText(base + "/" + size, 0) == CheckedNet(n)
  {
    SplitSlash(base, size);
  }

  lemma ReadSlash(base: string, n: Net)
    requires Denotes(base, n.ip, n.version) && Aligned(n)
    ensures ConstructText(base + "/" + Numeral(n.prefixlen, Decimal), 0) == Ok(n)
  {
    var size := Numeral(n.prefixlen, Decimal);
    DigitsFree(size, Decimal, '-');
    DigitsFree(size, Decimal, '/');
    DigitsFree(size, Decimal, '.');
    ReadNumeral(n.prefixlen, Decimal, false);
    ReadSized(base, size, Digits(size), n);
    CheckedNetMeaning(n);
  }

  /** Printed with `/prefix`, in full or in normal notation, every aligned network is read
      back unchanged, whatever the style of the object. */
  lemma PrefixRoundTrip(n: Net, style: Style)
    requires Aligned(n)
    ensures FullText(n, style, Some(1)).Ok? && NormalText(n, style, Some(1)).Ok?
    ensures Construct(Text(FullText(n, style, Some(1)).value), 0) == Ok(n)
    ensures Construct(Text(NormalText(n, style, Some(1)).value), 0) == Ok(n)
  {
    var full, normal, suffix := PrefixTexts(n, style);
    ReadPrefixed(full, n, suffix);
    ReadPrefixed(normal, n, suffix);
  }

  /** How the size is printed on request as a prefix length. */
  ghost predicate IsPrefixSuffix(n: Net, suffix: string)
    requires Aligned(n)
  {
    suffix == "/" + Numeral(n.prefixlen, Decimal) || (suffix == "" && n.prefixlen == BitsOf(n.version))
  }

  lemma PrefixTexts(n: Net, style: Style) returns (full: string, normal: string, suffix: string)
    requires Aligned(n)
    ensures IsPrefixSuffix(n, suffix)
    ensures Denotes(full, n.ip, n.version) && Denotes(normal, n.ip, n.version)
    ensures FullText(n, style, Some(1)) == Ok(full + suffix)
    ensures NormalText(n, style, Some(1)) == Ok(normal + suffix)
  {
    InRangeAddress(n);
    full, normal := Print(n.ip, n.version).value, NormalAddress(n.ip, n.version).value;
    suffix := Suffix(n, style, Some(1)).value;
  }

  lemma ReadPrefixed(base: string, n: Net, suffix: string)
    requires Aligned(n) && Denotes(base, n.ip, n.version) && IsPrefixSuffix(n, suffix)
    ensures ConstructText(base + suffix, 0) == Ok(n)
  {
    if suffix == "" {
      assert base + suffix == base;
      ReadPlain(base, n);
    } else {
      assert base + suffix == base + "/" + Numeral(n.prefixlen, Decimal);
      ReadSlash(base, n);
    }
  }

  // ---------------------------------------------------------------- integers and copies

  /** An integer makes a network of this one address, of the version asked for, or of the
      one its size suggests; no other version is accepted. */
  lemma IntegerIsOneAddress(n: int, ipversion: int)
    ensures Construct(Number(n), ipversion).Ok? <==> ipversion == 0 || ipversion == 4 || ipversion == 6
    ensures Construct(Number(n), ipversion).Ok? ==>
              var r := Construct(Number(n), ipversion).value;
              && r.ip == n
              && (r.version == 4 <==> ipversion == 4 || (ipversion == 0 && n < 0x1_0000_0000))
              && (r.version == 6 <==> ipversion == 6 || (ipversion == 0 && n >= 0x1_0000_0000))
              && r.prefixlen == (if r.version == 4 then 32 else 128)
              && forall x :: Covers(r, x) <==> x == n
    ensures Construct(Number(n), 0) == Ok(FromInt(n))
  {
    assert Pow2(0) == 1;
  }

  /** An integer in range makes a proper network, whose default texts in full and in normal
      notation are constructed again the same. */
  lemma IntegerRoundTrip(n: int, ipversion: int)
    requires ipversion == 0 || KnownVersion(ipversion)
    requires 0 <= n <= (if ipversion == 4 then MAX4 else MAX6)
    ensures Construct(Number(n), ipversion).Ok?
    ensures var r := Construct(Number(n), ipversion).value;
            && Aligned(r)
            && FullText(r, DefaultStyle, None).Ok? && NormalText(r, DefaultStyle, None).Ok?
            && Construct(Text(FullText(r, DefaultStyle, None).value), 0) == Ok(r)
            && Construct(Text(NormalText(r, DefaultStyle, None).value), 0) == Ok(r)
  {
    AddressLimits();
    var r := Construct(Number(n), ipversion).value;
    OneAddressAligned(r);
    DefaultRoundTrip(r);
  }

  lemma OneAddressAligned(r: Net)
    requires KnownVersion(r.version) && r.prefixlen == BitsOf(r.version) && 0 <= r.ip < Pow2(BitsOf(r.version))
    ensures Aligned(r)
  {
  }

  /** A copy has the fields of the original, whatever version is asked for. */
  lemma CopyIsSame(net: Net, ipversion: int)
    ensures Construct(Copy(net), ipversion).Ok?
    ensures var r := Construct(Copy(net), ipversion).value;
            r.ip == net.ip && r.prefixlen == net.prefixlen && r.version == net.version
  {
  }

  // ---------------------------------------------------------------- what is printed by default

  /** Without a request and without a preference of the object, the size is printed as a
      prefix length, and not at all for a single address. */
  lemma DefaultText(n: Net)
    requires Sized(n) && Print(n.ip, n.version).Ok?
    ensures FullText(n, DefaultStyle, None).Ok?
    ensures FullText(n, DefaultStyle, None).value
         == Print(n.ip, n.version).value + if n.prefixlen == BitsOf(n.version) then "" else "/" + IntText(n.prefixlen)
    ensures FullText(n, DefaultStyle, None) == FullText(n, DefaultStyle, Some(1))
    ensures NormalText(n, DefaultStyle, None) == NormalText(n, DefaultStyle, Some(1))
    ensures CompressedText(n, DefaultStyle, None) == CompressedText(n, DefaultStyle, Some(1))
  {
  }

  /** An address in the notation of its version. */
  function Spelled(v: int, version: int): string {
    if v < 0 then "" else if version == 4 then Dotted(v) else Full(v)
  }

  /** What is asked for: by the caller, or else by the object, or else the prefix length. */
  function Asked(style: Style, want: Option<int>): int {
    if want.Some? then want.value else if style.wantPrefixLen.Some? then style.wantPrefixLen.value else 1
  }

  lemma KindLaw(n: Net, style: Style, want: Option<int>)
    requires KnownVersion(n.version)
    ensures SuffixKind(n, style, Wanted(style, want))
         == if n.prefixlen == (if n.version == 4 then 32 else 128) && style.noPrefixForSingleIp then 0 else Asked(style, want)
  {
  }

  /** What is printed behind the address: nothing if that is asked for, or behind a single
      address if the object is so set; otherwise the mask that leaves out the network's
      size, the last address, or the prefix length. */
  lemma SuffixLaw(n: Net, style: Style, want: Option<int>)
    requires Aligned(n)
    ensures var asked := Asked(style, want);
            var single := n.prefixlen == (if n.version == 4 then 32 else 128);
            FullText(n, style, want) == Ok(Spelled(n.ip, n.version) +
              if asked == 0 || (single && style.noPrefixForSingleIp) then ""
              else if asked == 2 then "/" + Spelled(Pow2(BitsOf(n.version)) - Len(n), n.version)
              else if asked == 3 then "-" + Spelled(n.ip + Len(n) - 1, n.version)
              else "/" + Numeral(n.prefixlen, Decimal))
  {
    KindLaw(n, style, want);
    SuffixOfLaw(n, SuffixKind(n, style, Wanted(style, want)));
    SpelledPrint(n.ip, n.version);
  }

  lemma SuffixOfLaw(n: Net, kind: int)
    requires Aligned(n)
    ensures SuffixOf(n, kind) == Ok(
              if kind == 0 then ""
              else if kind == 2 then "/" + Spelled(Pow2(BitsOf(n.version)) - Len(n), n.version)
              else if kind == 3 then "-" + Spelled(n.ip + Len(n) - 1, n.version)
              else "/" + Numeral(n.prefixlen, Decimal))
  {
    if kind == 2 {
      MaskPrint(n);
    } else if kind == 3 {
      LastPrint(n);
    }
  }

  lemma MaskPrint(n: Net)
    requires Aligned(n)
    ensures Print(Netmask(n), n.version) == Ok(Spelled(Pow2(BitsOf(n.version)) - Len(n), n.version))
  {
    MaskInRange(n);
    SpelledPrint(Netmask(n), n.version);
  }

  lemma LastPrint(n: Net)
    requires Aligned(n)
    ensures Print(n.ip + Len(n) - 1, n.version) == Ok(Spelled(n.ip + Len(n) - 1, n.version))
  {
    LastInRange(n);
    SpelledPrint(n.ip + Len(n) - 1, n.version);
  }

  lemma SpelledPrint(v: int, version: int)
    requires KnownVersion(version) && 0 <= v < Pow2(BitsOf(version))
    ensures Print(v, version) == Ok(Spelled(v, version))
  {
    AddressLimits();
  }

  /** The default texts of every aligned network are constructed again the same. */
  lemma DefaultRoundTrip(n: Net)
    requires Aligned(n)
    ensures FullText(n, DefaultStyle, None).Ok? && NormalText(n, DefaultStyle, None).Ok?
    ensures Construct(Text(FullText(n, DefaultStyle, None).value), 0) == Ok(n)
    ensures Construct(Text(NormalText(n, DefaultStyle, None).value), 0) == Ok(n)
  {
    InRangeAddress(n);
    DefaultText(n);
    PrefixRoundTrip(n, DefaultStyle);
  }

  /** The default compressed text is, exactly if the network is IPv4, or a run of zeros is
      cut out that is not a pair at an end, or none is and the network is one address. */
  lemma DefaultCompressed(n: Net)
    requires Aligned(n)
    ensures CompressedText(n, DefaultStyle, None).Ok?
    ensures Construct(Text(CompressedText(n, DefaultStyle, None).value), 0) == Ok(n)
       <==> n.version == 4 || (if GapLength(GroupsOf(Hextet, n.ip, 8)) > 1 then !EdgePair(GroupsOf(Hextet, n.ip, 8))
                               else n.prefixlen == 128)
  {
    if n.version == 4 {
      DefaultRoundTrip(n);
      CompressedV4(n);
    } else {
      CompressedNetworkRoundTrip(n, DefaultStyle, None);
    }
  }

  lemma CompressedV4(n: Net)
    requires Sized(n) && n.version == 4
    ensures CompressedText(n, DefaultStyle, None) == FullText(n, DefaultStyle, None)
  {
  }

  // ---------------------------------------------------------------- all texts of a kind

  /** Exactly the addresses of a known version are printed, and the text denotes them. */
  lemma PrintExactly(ip: int, version: int)
    ensures Print(ip, version).Ok? <==> (version == 4 && 0 <= ip <= MAX4) || (version == 6 && 0 <= ip <= MAX6)
    ensures Print(ip, version).Ok? ==> Parse(Print(ip, version).value) == Ok(Parsed(ip, version))
  {
    if version == 4 && 0 <= ip <= MAX4 {
      DottedDenotes(ip);
    } else if version == 6 && 0 <= ip <= MAX6 {
      HextetsDenote(ip);
    }
  }

  function AskedVersion(version: int, ipversion: int): int {
    if ipversion == 0 then version else ipversion
  }

  /** An address without a size, for every version asked for. */
  lemma UnsizedText(base: string, ip: int, version: int, ipversion: int)
    requires Denotes(base, ip, version)
    ensures var v := AskedVersion(version, ipversion);
            && (ConstructText(base, ipversion).Ok? <==> KnownVersion(v) && 0 <= ip < Pow2(BitsOf(v)))
            && (ConstructText(base, ipversion).Ok? ==> ConstructText(base, ipversion).value == Net(ip, BitsOf(v), v))
  {
    SplitFree(base, '-');
    SplitFree(base, '/');
    var v := AskedVersion(version, ipversion);
    if KnownVersion(v) {
      CheckedNetMeaning(Net(ip, BitsOf(v), v));
    }
  }

  /** An address with the text of a prefix length: it is read as a number, and accepted
      exactly if the network is proper. */
  lemma SizedText(base: string, ip: int, version: int, t: string, ipversion: int)
    requires Denotes(base, ip, version) && '-' !in t && '/' !in t && '.' !in t && KnownVersion(AskedVersion(version, ipversion))
    ensures var v, p, r := AskedVersion(version, ipversion), ReadInt(t, Decimal, false), ConstructText(base + "/" + t, ipversion);
            && (r.Ok? <==> p.Some? && Aligned(Net(ip, p.value, v)))
            && (r.Ok? ==> r.value == Net(ip, p.value, v))
  {
    SplitSlash(base, t);
    var v, p := AskedVersion(version, ipversion), ReadInt(t, Decimal, false);
    if p.Some? {
      CheckNetaddrMeaning(ip, p.value, v);
    }
  }

  /** An address with a netmask: accepted exactly if the mask is a block of ones and the
      network with that many bits is proper. */
  lemma MaskedText(base: string, ip: int, version: int, mask: string, m: int, ipversion: int)
    requires Denotes(base, ip, version) && Denotes(mask, m, 4) && '.' in mask && m != 0
    requires KnownVersion(AskedVersion(version, ipversion))
    ensures var v, r := AskedVersion(version, ipversion), ConstructText(base + "/" + mask, ipversion);
            && (r.Ok? <==> NetmaskToPrefixlen(m).Ok? && Aligned(Net(ip, NetmaskToPrefixlen(m).value, v)))
            && (r.Ok? ==> r.value == Net(ip, NetmaskToPrefixlen(m).value, v))
  {
    SplitSlash(base, mask);
    var v := AskedVersion(version, ipversion);
    if NetmaskToPrefixlen(m).Ok? {
      CheckNetaddrMeaning(ip, NetmaskToPrefixlen(m).value, v);
    }
  }

  /** A mask that is not an IPv4 address is refused, and so is one that is none at all. */
  lemma OtherMaskRefused(base: string, mask: string, ipversion: int)
    requires '-' !in base && '/' !in base && '-' !in mask && '/' !in mask && '.' in mask
    requires Parse(mask).Raised? || Parse(mask).value.version != 4
    ensures ConstructText(base + "/" + mask, ipversion).Raised?
  {
    SplitSlash(base, mask);
  }

  /** More than one dash, or more than one slash, is refused. */
  lemma SeparatorsRefused(s: string, ipversion: int)
    requires |Split(s, '-')| > 2 || ('-' !in s && |Split(s, '/')| > 2)
    ensures ConstructText(s, ipversion).Raised?
  {
    SplitFree(s, '-');
  }

  // ---------------------------------------------------------------- netmask form

  lemma MaskText(n: Net)
    requires Aligned(n) && n.version == 4
    ensures 0 <= Netmask(n) <= MAX4 && Denotes(Dotted(Netmask(n)), Netmask(n), 4)
    ensures n.prefixlen == 0 ==> SlashSize(Dotted(Netmask(n))) == Raised(BadNetmask(LoopsForever))
    ensures n.prefixlen >= 1 ==> SlashSize(Dotted(Netmask(n))) == Ok(FromMask(n.prefixlen))
  {
    var mask := Netmask(n);
    AddressLimits();
    MaskFormulasAgree(n);
    Pow2Mono(32 - n.prefixlen, 32);
    DottedShape(mask);
    DottedDenotes(mask);
    if n.prefixlen >= 1 {
      NetmaskInverse(mask, n.prefixlen);
    }
  }

  /** Printed with `/netmask`, an IPv4 network is read back unchanged exactly when its
      prefix is not empty; with the mask 0.0.0.0 the constructor does not return. */
  lemma NetmaskRoundTrip(n: Net, style: Style)
    requires Aligned(n) && n.version == 4
    ensures FullText(n, style, Some(2)).Ok?
    ensures Construct(Text(FullText(n, style, Some(2)).value), 0) == Ok(n) <==> n.prefixlen >= 1
    ensures Hangs(Text(FullText(n, style, Some(2)).value), 0) <==> n.prefixlen == 0
  {
    InRangeAddress(n);
    MaskText(n);
    var base, mask := Dotted(n.ip), Dotted(Netmask(n));
    assert base + "" == base;
    assert base + ("/" + mask) == base + "/" + mask;
    if SuffixKind(n, style, Some(2)) == 0 {
      ReadPlain(base, n);
    } else if n.prefixlen == 0 {
      ReadZeroMask(base, mask);
    } else {
      ReadMask(base, mask, n, Netmask(n));
    }
  }

  lemma ReadMask(base: string, mask: string, n: Net, m: nat)
    requires Denotes(base, n.ip, 4) && Aligned(n) && n.version == 4 && n.prefixlen >= 1
    requires m == Netmask(n) && mask == Dotted(m)
    ensures ConstructText(base + "/" + mask, 0) == Ok(n)
  {
    MaskText(n);
    DottedShape(m);
    ReadSized(base, mask, FromMask(n.prefixlen), n);
    CheckedNetMeaning(n);
  }

  lemma ReadZeroMask(base: string, mask: string)
    requires '-' !in base && '/' !in base && '-' !in mask && '/' !in mask
    requires SlashSize(mask) == Raised(BadNetmask(LoopsForever))
    ensures ConstructText(base + "/" + mask, 0) == Raised(BadNetmask(LoopsForever))
  {
    SplitSlash(base, mask);
  }

  // ---------------------------------------------------------------- first-last form

  lemma SplitDash(first: string, last: string)
    requires '-' !in first && '-' !in last
    ensures Split(first + "-" + last, '-') == [first, last]
  {
    SplitHead(first, last, '-');
    SplitFree(last, '-');
  }

  lemma BitsBetween(a: int, b: int)
    requires a <= b
    ensures RangeBits(Ok(Parsed(a, 4)), Ok(Parsed(b, 4))) == Ok(BitLength(b - a))
  {
  }

  lemma RangeFinish(first: ParseResult, last: ParseResult, netbits: nat)
    requires RangeBits(first, last) == Ok(netbits)
    ensures ConstructRange(first, last, 0) == Finish(first, Unsized(netbits), 0)
  {
  }

  lemma FinishUnsized(a: int, netbits: nat)
    ensures Finish(Ok(Parsed(a, 4)), Unsized(netbits), 0) == CheckedNet(Net(a, 32 - netbits, 4))
  {
  }

  lemma SplitRange(first: string, last: string, ipversion: int)
    requires '-' !in first && '-' !in last
    ensures ConstructText(first + "-" + last, ipversion) == ConstructRange(Parse(first), Parse(last), ipversion)
  {
    SplitDash(first, last);
  }

  lemma ReadRange(first: string, last: string, a: int, b: int, netbits: nat)
    requires Denotes(first, a, 4) && Denotes(last, b, 4) && a <= b && netbits == BitLength(b - a)
    ensures ConstructText(first + "-" + last, 0) == CheckedNet(Net(a, 32 - netbits, 4))
  {
    SplitRange(first, last, 0);
    BitsBetween(a, b);
    RangeFinish(Parse(first), Parse(last), netbits);
    FinishUnsized(a, netbits);
  }

  lemma BitLengthFits(size: nat, n: nat)
    requires size < Pow2(n)
    ensures BitLength(size) <= n
  {
    BitLengthBounds(size);
    if BitLength(size) >= 1 {
      Pow2Order(BitLength(size) - 1, n);
    }
  }

  lemma Pow2Order(a: nat, b: nat)
    requires Pow2(a) < Pow2(b)
    ensures a < b
  {
    if b <= a {
      Pow2Mono(b, a);
    }
  }

  lemma ReadPositive(s: string, b: Base, longSuffix: bool)
    requires '-' !in s
    ensures ReadInt(s, b, longSuffix).Some? ==> ReadInt(s, b, longSuffix).value >= 0
  {
    StripKeeps(s, '-');
  }

  lemma SoloInRange(s: string)
    requires '-' !in s && ReadSolo(s).Ok? && ReadSolo(s).value.version == 4
    ensures 0 <= ReadSolo(s).value.value <= MAX4
  {
    ReadPositive(s, Decimal, true);
    if Is0x(s) {
      ReadPositive(s[2..], Hex, true);
    }
  }

  /** A text without a dash that is taken for IPv4 denotes an address in range. */
  lemma DashFreeInRange(s: string)
    requires '-' !in s && Parse(s).Ok? && Parse(s).value.version == 4
    ensures 0 <= Parse(s).value.value <= MAX4
  {
    if Is0x(s) {
      ReadPositive(s[2..], Hex, true);
    } else if ':' in s {
      ColonsAreV6(s);
    } else {
      SoloInRange(s);
    }
  }

  /** Both ends are IPv4 addresses, in order. */
  predicate InOrder(first: ParseResult, last: ParseResult) {
    && first.Ok? && last.Ok? && first.value.version == 4 && last.value.version == 4
    && first.value.value <= last.value.value
  }

  /** A block of 2 to the power k at a is a network exactly if it is aligned. */
  lemma RangeNet(a: nat, k: nat, version: int)
    requires a <= MAX4 && k <= 32 && KnownVersion(version)
    ensures CheckedNet(Net(a, BitsOf(version) - k, version))
         == if Divisible(a, k) then Ok(Net(a, BitsOf(version) - k, version)) else Raised(Misaligned)
  {
    AddressLimits();
    CheckedNetMeaning(Net(a, BitsOf(version) - k, version));
  }

  lemma RangeBits32(a: nat, b: nat)
    requires a <= b <= MAX4
    ensures BitLength(b - a) <= 32
  {
    AddressLimits();
    BitLengthFits(b - a, 32);
  }

  /** The first end is aligned to the power of two that the difference needs. */
  predicate RangeFits(first: ParseResult, last: ParseResult) {
    InOrder(first, last) && Divisible(first.value.value, BitLength(last.value.value - first.value.value))
  }

  /** The version that a range is constructed for. */
  function VersionOf(ipversion: int): int {
    if ipversion == 0 then 4 else ipversion
  }

  /** The block of that power of two that starts at the first end. */
  function RangeBlock(first: ParseResult, last: ParseResult, version: int): Net
    requires InOrder(first, last) && KnownVersion(version)
  {
    Net(first.value.value, BitsOf(version) - BitLength(last.value.value - first.value.value), version)
  }

  predicate InRange4(a: ParseResult) {
    a.Ok? && a.value.version == 4 ==> 0 <= a.value.value <= MAX4
  }

  lemma RangeConstructed(first: ParseResult, last: ParseResult, ipversion: int)
    requires KnownVersion(VersionOf(ipversion))
    ensures !InOrder(first, last) ==> ConstructRange(first, last, ipversion).Raised?
    ensures InOrder(first, last) ==>
              ConstructRange(first, last, ipversion) == CheckedNet(RangeBlock(first, last, VersionOf(ipversion)))
  {
  }

  lemma BlockChecked(first: ParseResult, last: ParseResult, version: int)
    requires InOrder(first, last) && InRange4(first) && InRange4(last) && KnownVersion(version)
    ensures CheckedNet(RangeBlock(first, last, version))
         == if RangeFits(first, last) then Ok(RangeBlock(first, last, version)) else Raised(Misaligned)
  {
    RangeBits32(first.value.value, last.value.value);
    RangeNet(first.value.value, BitLength(last.value.value - first.value.value), version);
  }

  lemma RangeResult(first: ParseResult, last: ParseResult, ipversion: int)
    requires InRange4(first) && InRange4(last) && KnownVersion(VersionOf(ipversion))
    ensures ConstructRange(first, last, ipversion).Ok? <==> RangeFits(first, last)
    ensures RangeFits(first, last) ==>
              ConstructRange(first, last, ipversion) == Ok(RangeBlock(first, last, VersionOf(ipversion)))
  {
    RangeConstructed(first, last, ipversion);
    if InOrder(first, last) {
      BlockChecked(first, last, VersionOf(ipversion));
    }
  }

  lemma DashFreeRange(s: string)
    requires '-' !in s
    ensures InRange4(Parse(s))
  {
    if Parse(s).Ok? && Parse(s).value.version == 4 {
      DashFreeInRange(s);
    }
  }

  /** Every first-last text, for every version asked for, is accepted exactly if both ends
      are IPv4 addresses in order and the first is aligned to the power of two that the
      difference needs; the result is that block. */
  lemma RangeText(first: string, last: string, ipversion: int)
    requires '-' !in first && '-' !in last && KnownVersion(VersionOf(ipversion))
    ensures ConstructText(first + "-" + last, ipversion).Ok? <==> RangeFits(Parse(first), Parse(last))
    ensures RangeFits(Parse(first), Parse(last)) ==>
              ConstructText(first + "-" + last, ipversion) == Ok(RangeBlock(Parse(first), Parse(last), VersionOf(ipversion)))
  {
    SplitRange(first, last, ipversion);
    DashFreeRange(first);
    DashFreeRange(last);
    RangeResult(Parse(first), Parse(last), ipversion);
  }

  /** The smallest block of a power of two that starts at first and contains last. */
  ghost predicate IsSmallestBlock(n: Net, a: int, b: int) {
    && Aligned(n) && n.version == 4 && n.ip == a && Covers(n, b)
    && (forall k: nat :: b < a + Pow2(k) ==> Len(n) <= Pow2(k))
    && (n.ip + Len(n) - 1 == b <==> exists k: nat :: b - a + 1 == Pow2(k))
  }

  /** An accepted first-last text gives that block; it ends at last exactly if the range has
      the size of a power of two. */
  lemma RangeIsSmallestBlock(first: string, last: string, n: Net)
    requires '-' !in first && '-' !in last && ConstructText(first + "-" + last, 0) == Ok(n)
    ensures InOrder(Parse(first), Parse(last))
    ensures IsSmallestBlock(n, Parse(first).value.value, Parse(last).value.value)
  {
    RangeText(first, last, 0);
    DashFreeRange(first);
    DashFreeRange(last);
    BlockIsSmallest(Parse(first), Parse(last), n);
  }

  lemma BlockIsSmallest(first: ParseResult, last: ParseResult, n: Net)
    requires RangeFits(first, last) && InRange4(first) && InRange4(last) && n == RangeBlock(first, last, 4)
    ensures IsSmallestBlock(n, first.value.value, last.value.value)
  {
    var a, b := first.value.value, last.value.value;
    RangeBits32(a, b);
    SmallestBlock(a, b, BitLength(b - a), n);
  }

  lemma SmallestBlock(a: nat, b: nat, k: nat, n: Net)
    requires a <= b <= MAX4 && k == BitLength(b - a) <= 32 && Divisible(a, k)
    requires n == Net(a, 32 - k, 4)
    ensures IsSmallestBlock(n, a, b)
  {
    BlockAligned(n, k);
    LenIs(n, k);
    SmallestPower(b - a);
    FirstToLast(n, a, b, k);
  }

  lemma BlockAligned(n: Net, k: nat)
    requires k <= 32 && n == Net(n.ip, 32 - k, 4) && 0 <= n.ip <= MAX4 && Divisible(n.ip, k)
    ensures Aligned(n)
  {
    AddressLimits();
  }

  lemma FirstToLast(n: Net, a: nat, b: nat, k: nat)
    requires Aligned(n) && n.version == 4 && n.ip == a <= b && Len(n) == Pow2(k) && b - a < Pow2(k)
    requires forall j: nat :: b - a < Pow2(j) ==> Pow2(k) <= Pow2(j)
    requires b - a + 1 == Pow2(k) <==> exists j: nat :: b - a + 1 == Pow2(j)
    ensures IsSmallestBlock(n, a, b)
  {
  }

  lemma LenIs(n: Net, k: nat)
    requires k <= 32 && n == Net(n.ip, 32 - k, 4)
    ensures Len(n) == Pow2(k)
  {
  }

  lemma SmallestPower(size: nat)
    ensures size < Pow2(BitLength(size))
    ensures forall k: nat :: size < Pow2(k) ==> Pow2(BitLength(size)) <= Pow2(k)
    ensures size + 1 == Pow2(BitLength(size)) <==> exists k: nat :: size + 1 == Pow2(k)
  {
    var n := BitLength(size);
    BitLengthBounds(size);
    forall k: nat | size < Pow2(k) ensures Pow2(n) <= Pow2(k) {
      if k < n {
        Pow2Mono(k, n - 1);
      } else {
        Pow2Mono(n, k);
      }
    }
  }

  lemma LastOfBlock(n: Net)
    requires Aligned(n) && n.version == 4
    ensures var last := n.ip + Len(n) - 1;
            n.ip <= last <= MAX4 && BitLength(last - n.ip) == 32 - n.prefixlen
  {
    AddressLimits();
    LastInRange(n);
    BlockBits(32 - n.prefixlen);
  }

  lemma LastInRange(n: Net)
    requires Aligned(n)
    ensures n.ip + Len(n) <= Pow2(BitsOf(n.version))
  {
    var z, bits := BitsOf(n.version) - n.prefixlen, BitsOf(n.version);
    Pow2Mono(z, bits);
    ZeroDivisible(bits);
    BlocksNest(0, bits, n.ip, z, n.ip);
  }

  lemma BlockBits(z: nat)
    ensures BitLength(Pow2(z) - 1) == z
  {
    if z > 0 {
      BitLengthUnique(Pow2(z) - 1, z);
    }
  }

  /** Printed as first-last, every IPv4 network is read back unchanged. */
  lemma RangeRoundTrip(n: Net, style: Style)
    requires Aligned(n) && n.version == 4
    ensures FullText(n, style, Some(3)).Ok?
    ensures Construct(Text(FullText(n, style, Some(3)).value), 0) == Ok(n)
  {
    var end := n.ip + Len(n) - 1;
    LastOfBlock(n);
    RangeSuffix(n, style, end);
    RangeReads(n, end);
  }

  lemma RangeReads(n: Net, end: nat)
    requires Aligned(n) && n.version == 4 && end == n.ip + Len(n) - 1
    ensures ConstructText(Dotted(n.ip) + ("-" + Dotted(end)), 0) == Ok(n)
    ensures n.prefixlen == 32 ==> ConstructText(Dotted(n.ip) + "", 0) == Ok(n)
  {
    LastOfBlock(n);
    DottedDenotes(n.ip);
    DottedDenotes(end);
    ReadEither(Dotted(n.ip), Dotted(end), n, end);
  }

  lemma ReadEither(base: string, last: string, n: Net, end: int)
    requires Aligned(n) && n.version == 4 && end == n.ip + Len(n) - 1
    requires Denotes(base, n.ip, 4) && Denotes(last, end, 4)
    ensures ConstructText(base + ("-" + last), 0) == Ok(n)
    ensures n.prefixlen == 32 ==> ConstructText(base + "", 0) == Ok(n)
  {
    assert base + "" == base && base + ("-" + last) == base + "-" + last;
    var bits := BlockEnds(n, end);
    ReadRangeAs(base, last, n.ip, end, bits, n);
    if n.prefixlen == 32 {
      ReadPlain(base, n);
    }
  }

  lemma RangeSuffix(n: Net, style: Style, end: nat)
    requires Aligned(n) && n.version == 4 && end == n.ip + Len(n) - 1 <= MAX4
    ensures FullText(n, style, Some(3))
         == Ok(Dotted(n.ip) + if n.prefixlen == 32 && style.noPrefixForSingleIp then "" else "-" + Dotted(end))
  {
    InRangeAddress(n);
    assert Wanted(style, Some(3)) == Some(3);
    DashSuffix(n, style, end);
  }

  lemma DashSuffix(n: Net, style: Style, end: nat)
    requires Sized(n) && n.version == 4 && end == n.ip + Len(n) - 1 <= MAX4
    ensures Suffix(n, style, Some(3))
         == Ok(if n.prefixlen == 32 && style.noPrefixForSingleIp then "" else "-" + Dotted(end))
  {
  }

  lemma BlockNet(n: Net)
    requires Aligned(n) && n.version == 4
    ensures CheckedNet(Net(n.ip, 32 - (32 - n.prefixlen), 4)) == Ok(n)
  {
    CheckedNetMeaning(n);
  }

  /** The block of that many bits from a to b is the network n. */
  ghost predicate IsBlockOf(a: int, b: int, netbits: nat, n: Net) {
    a <= b && netbits == BitLength(b - a) && CheckedNet(Net(a, 32 - netbits, 4)) == Ok(n)
  }

  lemma ReadRangeAs(first: string, last: string, a: int, b: int, netbits: nat, n: Net)
    requires Denotes(first, a, 4) && Denotes(last, b, 4) && IsBlockOf(a, b, netbits, n)
    ensures ConstructText(first + "-" + last, 0) == Ok(n)
  {
    ReadRange(first, last, a, b, netbits);
  }

  lemma BlockEnds(n: Net, end: int) returns (bits: nat)
    requires Aligned(n) && n.version == 4 && end == n.ip + Len(n) - 1
    ensures IsBlockOf(n.ip, end, bits, n)
  {
    LastOfBlock(n);
    BlockNet(n);
    bits := 32 - n.prefixlen;
  }

  // ---------------------------------------------------------------- compressed networks

  /** Neither a separator of specifications nor a mark of another notation. */
  predicate Plain(t: string) {
    '-' !in t && '/' !in t && 'x' !in t && '.' !in t
  }

  lemma MaskInRange(n: Net)
    requires Aligned(n)
    ensures 0 <= Netmask(n) < Pow2(BitsOf(n.version)) && Pow2(32) == MAX4 + 1 && Pow2(128) == MAX6 + 1
    ensures Netmask(n) == Pow2(BitsOf(n.version)) - Len(n)
  {
    AddressLimits();
    MaskFormulasAgree(n);
    Pow2Mono(BitsOf(n.version) - n.prefixlen, BitsOf(n.version));
  }

  /** The suffix of an IPv6 network for a request: nothing, a mask, a last address or the
      prefix length. */
  ghost predicate IsSuffixText(s: string, p: int, kind: int) {
    if kind == 0 then s == ""
    else
      && s != "" && s[0] == (if kind == 3 then '-' else '/') && Plain(s[1..])
      && (kind == 2 ==> ':' in s[1..])
      && (kind != 2 && kind != 3 && p >= 0 ==> s[1..] == Numeral(p, Decimal))
  }

  lemma SuffixIs(n: Net, style: Style, want: Option<int>)
    requires Aligned(n) && n.version == 6
    ensures Suffix(n, style, want).Ok?
    ensures IsSuffixText(Suffix(n, style, want).value, n.prefixlen, SuffixKind(n, style, want))
  {
    KindIs(n, SuffixKind(n, style, want));
  }

  lemma KindIs(n: Net, kind: int)
    requires Aligned(n) && n.version == 6
    ensures SuffixOf(n, kind).Ok? && IsSuffixText(SuffixOf(n, kind).value, n.prefixlen, kind)
  {
    SuffixOfLaw(n, kind);
    if kind == 2 {
      MaskPlain(n);
      TailIsSuffix("/", Spelled(Pow2(BitsOf(n.version)) - Len(n), 6), n.prefixlen, kind);
    } else if kind == 3 {
      FullPlain(n.ip + Len(n) - 1);
      TailIsSuffix("-", Full(n.ip + Len(n) - 1), n.prefixlen, kind);
    } else if kind != 0 {
      DigitsPlain(Numeral(n.prefixlen, Decimal));
      TailIsSuffix("/", Numeral(n.prefixlen, Decimal), n.prefixlen, kind);
    }
  }

  lemma TailIsSuffix(c: string, t: string, p: int, kind: int)
    requires c == (if kind == 3 then "-" else "/") && kind != 0 && Plain(t) && (kind == 2 ==> ':' in t)
    requires kind != 2 && kind != 3 && p >= 0 ==> t == Numeral(p, Decimal)
    ensures IsSuffixText(c + t, p, kind)
  {
    assert (c + t)[1..] == t;
  }

  lemma MaskPlain(n: Net)
    requires Aligned(n) && n.version == 6
    ensures Plain(Spelled(Pow2(BitsOf(n.version)) - Len(n), 6)) && ':' in Spelled(Pow2(BitsOf(n.version)) - Len(n), 6)
  {
    Pow2Mono(BitsOf(n.version) - n.prefixlen, BitsOf(n.version));
    FullPlain(Pow2(BitsOf(n.version)) - Len(n));
  }

  lemma FullPlain(v: nat)
    ensures Plain(Full(v)) && ':' in Full(v)
  {
    var t := FullTexts(GroupsOf(Hextet, v, 8));
    forall c | c == '-' || c == '/' || c == 'x' || c == '.' ensures c !in Full(v) {
      FullTextsFree(GroupsOf(Hextet, v, 8), c);
      JoinFree(t, ':', c);
    }
    JoinHasSep(t, ':');
  }

  lemma DigitsPlain(t: string)
    requires AllDigits(t, Decimal)
    ensures Plain(t)
  {
    DigitsFree(t, Decimal, '-');
    DigitsFree(t, Decimal, '/');
    DigitsFree(t, Decimal, 'x');
    DigitsFree(t, Decimal, '.');
  }

  /** With a colon, a text denotes nothing but IPv6 addresses. */
  lemma ColonIsV6(s: string)
    requires ':' in s && 'x' !in s
    ensures Parse(s).Ok? ==> Parse(s).value.version == 6
  {
    No0x(s);
    ColonsAreV6(s);
  }

  lemma ColonsAreV6(s: string)
    ensures ReadColons(s).Ok? ==> ReadColons(s).value.version == 6
  {
    if !HasTripleColon(s) {
      var parts := Split(s, ':');
      if '.' !in s {
        PartsAreV6(parts);
      } else if ExpandTail(parts).Ok? {
        PartsAreV6(ExpandTail(parts).value);
      }
    }
  }

  lemma PartsAreV6(parts: seq<string>)
    ensures ReadParts(parts).Ok? ==> ReadParts(parts).value.version == 6
  {
  }

  /** A dash behind an IPv6 address. */
  lemma DashRefused(first: string, rest: string)
    requires ':' in first && 'x' !in first && '-' !in first
    ensures ConstructText(first + "-" + rest, 0).Raised?
  {
    ColonIsV6(first);
    SplitHead(first, rest, '-');
    FirstV6(Parse(first));
  }

  lemma FirstV6(first: ParseResult)
    requires first.Ok? ==> first.value.version == 6
    ensures forall last :: ConstructRange(first, last, 0).Raised?
  {
  }

  /** Two slashes. */
  lemma SlashesRefused(base: string, a: string, b: string)
    requires '-' !in base && '-' !in a && '-' !in b && '/' !in base && '/' !in a
    ensures ConstructText(base + ("/" + a) + ("/" + b), 0).Raised?
  {
    var t := base + "/" + (a + "/" + b);
    assert base + ("/" + a) + ("/" + b) == t;
    SplitFree(t, '-');
    SplitHead(base, a + "/" + b, '/');
    SplitHead(a, b, '/');
    TooMany(t);
  }

  lemma TooMany(t: string)
    requires Split(t, '-') == [t] && |Split(t, '/')| > 2
    ensures ConstructText(t, 0).Raised?
  {
  }

  /** An IPv6 netmask behind the slash. */
  lemma MaskRefused(base: string, mask: string)
    requires '-' !in base && '/' !in base && Plain(mask) && ':' in mask
    ensures ConstructText(base + "/" + mask, 0).Raised?
  {
    SplitSlash(base, mask);
    ColonUnread(mask);
  }

  lemma ColonUnread(mask: string)
    requires ':' in mask
    ensures ReadInt(mask, Decimal, false) == None
  {
    StripKeeps(mask, ':');
  }

  /** An address whose text is refused, with any suffix. */
  lemma EdgeRefused(base: string, size: string)
    requires Parse(base).Raised? && '-' !in base && '/' !in base
    requires '-' !in size && '/' !in size && '.' !in size
    ensures ConstructText(base, 0).Raised? && ConstructText(base + "/" + size, 0).Raised?
  {
    SplitFree(base, '-');
    SplitFree(base, '/');
    SplitSlash(base, size);
  }

  /** Whether a suffix gives back the size of the network. */
  predicate GivesSize(n: Net, kind: int) {
    if kind == 0 then n.prefixlen == 128 else kind != 2 && kind != 3
  }

  lemma Glue(base: string, s: string)
    requires s != ""
    ensures base + s == base + [s[0]] + s[1..]
  {
  }

  /** A text for the address of the network, with one suffix. */
  lemma OneSuffix(base: string, n: Net, kind: int, s: string)
    requires Aligned(n) && n.version == 6 && Plain(base) && ':' in base && IsSuffixText(s, n.prefixlen, kind)
    requires Parse(base) == Ok(Parsed(n.ip, 6)) || Parse(base).Raised?
    ensures ConstructText(base + s, 0) == Ok(n) <==> Parse(base).Ok? && GivesSize(n, kind)
  {
    if kind == 0 {
      NoSuffix(base, n, s);
    } else {
      Glue(base, s);
      if kind == 3 {
        DashRefused(base, s[1..]);
      } else {
        SlashSuffix(base, n, kind, s[1..]);
      }
    }
  }

  lemma NoSuffix(base: string, n: Net, s: string)
    requires Aligned(n) && n.version == 6 && '-' !in base && '/' !in base && s == ""
    requires Parse(base) == Ok(Parsed(n.ip, 6)) || Parse(base).Raised?
    ensures ConstructText(base + s, 0) == Ok(n) <==> Parse(base).Ok? && n.prefixlen == 128
  {
    assert base + s == base;
    BareAddress(base, n);
  }

  lemma BareAddress(base: string, n: Net)
    requires Aligned(n) && n.version == 6 && '-' !in base && '/' !in base
    requires Parse(base) == Ok(Parsed(n.ip, 6)) || Parse(base).Raised?
    ensures ConstructText(base, 0) == Ok(n) <==> Parse(base).Ok? && n.prefixlen == 128
  {
    if Parse(base).Ok? {
      var single := Net(n.ip, 128, 6);
      ReadPlain(base, single);
    } else {
      EdgeRefused(base, "");
    }
  }

  lemma SlashSuffix(base: string, n: Net, kind: int, tail: string)
    requires Aligned(n) && n.version == 6 && Plain(base) && Plain(tail) && (kind == 2 ==> ':' in tail)
    requires kind != 2 ==> tail == Numeral(n.prefixlen, Decimal)
    requires Parse(base) == Ok(Parsed(n.ip, 6)) || Parse(base).Raised?
    ensures ConstructText(base + "/" + tail, 0) == Ok(n) <==> Parse(base).Ok? && kind != 2
  {
    if kind == 2 {
      MaskRefused(base, tail);
    } else if Parse(base).Ok? {
      ReadSlash(base, n);
    } else {
      EdgeRefused(base, tail);
    }
  }

  /** The suffix that strNormal prints of itself, and the one asked for. */
  function OwnKind(n: Net, style: Style): int
    requires n.version == 6
  {
    SuffixKind(n, style, Wanted(style, None))
  }

  function AskedKind(n: Net, style: Style, want: Option<int>): int
    requires n.version == 6
  {
    SuffixKind(n, style, Wanted(style, want))
  }

  /** The full and the normal text of an IPv6 network, for every style and request, are
      read back exactly if the suffix gives the size. */
  lemma V6RoundTrip(n: Net, style: Style, want: Option<int>)
    requires Aligned(n) && n.version == 6
    ensures FullText(n, style, want).Ok? && NormalText(n, style, want).Ok?
    ensures Construct(Text(FullText(n, style, want).value), 0) == Ok(n) <==> GivesSize(n, AskedKind(n, style, want))
    ensures Construct(Text(NormalText(n, style, want).value), 0) == Ok(n) <==> GivesSize(n, AskedKind(n, style, want))
  {
    var s := V6Texts(n, style, want);
    OneSuffix(Full(n.ip), n, AskedKind(n, style, want), s);
    OneSuffix(Colons(GroupsOf(Hextet, n.ip, 8)), n, AskedKind(n, style, want), s);
  }

  lemma V6Texts(n: Net, style: Style, want: Option<int>) returns (s: string)
    requires Aligned(n) && n.version == 6
    ensures 0 <= n.ip <= MAX6 && IsSuffixText(s, n.prefixlen, AskedKind(n, style, want))
    ensures FullText(n, style, want) == Ok(Full(n.ip) + s)
    ensures NormalText(n, style, want) == Ok(Colons(GroupsOf(Hextet, n.ip, 8)) + s)
    ensures Plain(Full(n.ip)) && ':' in Full(n.ip) && Parse(Full(n.ip)) == Ok(Parsed(n.ip, 6))
    ensures var normal := Colons(GroupsOf(Hextet, n.ip, 8));
            Plain(normal) && ':' in normal && Parse(normal) == Ok(Parsed(n.ip, 6))
  {
    InRangeAddress(n);
    SuffixIs(n, style, Wanted(style, want));
    FullPlain(n.ip);
    NormalPlain(n.ip);
    s := Suffix(n, style, Wanted(style, want)).value;
  }

  lemma NormalPlain(v: nat)
    requires v <= MAX6
    ensures Plain(Colons(GroupsOf(Hextet, v, 8))) && ':' in Colons(GroupsOf(Hextet, v, 8))
  {
    var g := GroupsOf(Hextet, v, 8);
    HextetsDenote(v);
    TextsSpell(g);
    SideFacts(Texts(g, Hex), g);
    JoinHasSep(Texts(g, Hex), ':');
  }

  /** Two suffixes one after the other are refused. */
  lemma TwoSuffixes(base: string, p: int, first: int, a: string, second: int, b: string)
    requires Plain(base) && ':' in base && first != 0 && second != 0
    requires IsSuffixText(a, p, first) && IsSuffixText(b, p, second)
    ensures ConstructText(base + a + b, 0).Raised?
  {
    if first == 3 {
      DashFirst(base, a[1..], b);
      assert a == "-" + a[1..];
      DashRefused(base, a[1..] + b);
    } else if second == 3 {
      assert a == "/" + a[1..] && b == "-" + b[1..];
      SlashThenDash(base, a[1..], b[1..]);
    } else {
      assert a == "/" + a[1..] && b == "/" + b[1..];
      SlashesRefused(base, a[1..], b[1..]);
    }
  }

  lemma DashFirst(base: string, a: string, tail: string)
    ensures base + ("-" + a) + tail == base + "-" + (a + tail)
  {
  }

  lemma SlashThenDash(base: string, a: string, b: string)
    requires Plain(base) && ':' in base && Plain(a)
    ensures ConstructText(base + ("/" + a) + ("-" + b), 0).Raised?
  {
    var first := base + ("/" + a);
    assert first + ("-" + b) == first + "-" + b;
    assert forall c :: c in first ==> c in base || c == '/' || c in a;
    DashRefused(first, b);
  }

  lemma CompressedPlain(h: seq<nat>)
    requires IsAddress(h)
    ensures Plain(Compress(h)) && ':' in Compress(h)
  {
    var pos, len := GapStart(h), GapLength(h);
    CompressedFree(h);
    TextsSpell(h);
    SideFacts(Texts(h, Hex), h);
    if len > 1 {
      TextsSpell(h[..pos]);
      TextsSpell(h[pos + len..]);
      SideFacts(Texts(h[..pos], Hex), h[..pos]);
      SideFacts(Texts(h[pos + len..], Hex), h[pos + len..]);
      assert Compress(h)[|Colons(h[..pos])|] == ':';
    } else {
      JoinHasSep(Texts(h, Hex), ':');
    }
  }

  lemma CompressedShape(n: Net, style: Style, want: Option<int>)
    requires Aligned(n) && n.version == 6
    ensures Suffix(n, style, Wanted(style, want)).Ok? && Suffix(n, style, Wanted(style, None)).Ok?
    ensures CompressedText(n, style, want)
         == Ok(NetworkText(n, Suffix(n, style, Wanted(style, None)).value, Suffix(n, style, Wanted(style, want)).value))
  {
    InRangeAddress(n);
    SuffixIs(n, style, Wanted(style, want));
    SuffixIs(n, style, Wanted(style, None));
    SameWanted(n, style, want);
  }

  lemma SameWanted(n: Net, style: Style, want: Option<int>)
    requires Sized(n)
    ensures Wanted(style, Wanted(style, want)) == Wanted(style, want)
  {
  }

  /** The compressed text of an IPv6 network, for every style of the object and every
      request, is read back exactly in two cases: a run of zeros is cut out that is not a
      pair at an end, and the suffix gives the size; or no run is cut out and, of the two
      suffixes then printed, one is empty and the other gives the size. */
  lemma CompressedNetworkRoundTrip(n: Net, style: Style, want: Option<int>)
    requires Aligned(n) && n.version == 6
    ensures CompressedText(n, style, want).Ok?
    ensures var own, asked := OwnKind(n, style), AskedKind(n, style, want);
            (Construct(Text(CompressedText(n, style, want).value), 0) == Ok(n)
             <==> if GapLength(GroupsOf(Hextet, n.ip, 8)) > 1
                  then !EdgePair(GroupsOf(Hextet, n.ip, 8)) && GivesSize(n, asked)
                  else (own == 0 && GivesSize(n, asked)) || (asked == 0 && GivesSize(n, own)))
  {
    CompressedShape(n, style, want);
    SuffixIs(n, style, Wanted(style, want));
    SuffixIs(n, style, Wanted(style, None));
    NetworkTextReads(n, OwnKind(n, style), Suffix(n, style, Wanted(style, None)).value,
                     AskedKind(n, style, want), Suffix(n, style, Wanted(style, want)).value);
  }

  function NetworkText(n: Net, own: string, asked: string): string
    requires 0 <= n.ip
  {
    var h := GroupsOf(Hextet, n.ip, 8);
    if GapLength(h) > 1 then Compress(h) + asked else Colons(h) + own + asked
  }

  lemma NetworkTextReads(n: Net, own: int, a: string, asked: int, b: string)
    requires Aligned(n) && n.version == 6 && IsSuffixText(a, n.prefixlen, own) && IsSuffixText(b, n.prefixlen, asked)
    ensures ConstructText(NetworkText(n, a, b), 0) == Ok(n)
       <==> if GapLength(GroupsOf(Hextet, n.ip, 8)) > 1
            then !EdgePair(GroupsOf(Hextet, n.ip, 8)) && GivesSize(n, asked)
            else (own == 0 && GivesSize(n, asked)) || (asked == 0 && GivesSize(n, own))
  {
    var h := GroupsOf(Hextet, n.ip, 8);
    AddressLimits();
    CompressedPlain(h);
    if GapLength(h) > 1 {
      CompressedRoundTrip(n.ip);
      OneSuffix(Compress(h), n, asked, b);
    } else {
      HextetsDenote(n.ip);
      UncutNetwork(Colons(h), n, own, a, asked, b);
    }
  }

  lemma UncutNetwork(base: string, n: Net, own: int, a: string, asked: int, b: string)
    requires Aligned(n) && n.version == 6 && Plain(base) && ':' in base && Parse(base) == Ok(Parsed(n.ip, 6))
    requires IsSuffixText(a, n.prefixlen, own) && IsSuffixText(b, n.prefixlen, asked)
    ensures ConstructText(base + a + b, 0) == Ok(n)
       <==> (own == 0 && GivesSize(n, asked)) || (asked == 0 && GivesSize(n, own))
  {
    if own == 0 {
      assert base + a == base;
      OneSuffix(base, n, asked, b);
    } else if asked == 0 {
      assert base + a + b == base + a;
      OneSuffix(base, n, own, a);
    } else {
      TwoSuffixes(base, n.prefixlen, own, a, asked, b);
    }
  }
}
