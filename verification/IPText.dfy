/** The class IPint of IPy.py: reading a network specification, printing it, and what
    printing followed by reading gives back. */
module IPText {
  import opened Prelude
  import opened PyText
  import opened Groups
  import opened Notation
  import Address
  import opened Compressed
  import opened Bits
  import opened Network

  /** What the constructor accepts: an integer, another object, or a text. */
  datatype Data = Number(n: int) | Copy(net: Net) | Text(s: string)

  datatype IPError =
    | BadAddress(address: AddressError)
    | BadNetmask(mask: BitError)
    | BadNetwork(network: NetError)
    | FirstNotV4 | LastNotV4 | LastBeforeFirst
    | TooManySlashes | TooManyDashes
    | NetmaskNotV4 | BadPrefixNumeral | UnsupportedVersion | Misaligned

  /** The size part of a specification: none (but a range may need some bits), the digits
      after the slash, or a prefix length found from a netmask. */
  datatype SizePart = Unsized(netbits: nat) | Digits(digits: string) | FromMask(prefixlen: int)

  // ---------------------------------------------------------------- reading

  /** `_prefixlen` once the version is known. */
  function ResolveSize(size: SizePart, version: int): Result<int, IPError> {
    match size
    case Unsized(netbits) =>
      if version == 4 then Ok(32 - netbits)
      else if version == 6 then Ok(128 - netbits)
      else Raised(UnsupportedVersion)
    case Digits(digits) =>
      (match ReadInt(digits, Decimal, false)
       case None => Raised(BadPrefixNumeral)
       case Some(p) => Ok(p))
    case FromMask(p) => Ok(p)
  }

  function CheckedNet(net: Net): Result<Net, IPError> {
    match CheckNetaddr(net.ip, net.prefixlen, net.version)
    case Raised(e) => Raised(BadNetwork(e))
    case Ok(good) => if good then Ok(net) else Raised(Misaligned)
  }

  /** The last part of the constructor, common to all texts, on the parsed address. */
  function Finish(address: ParseResult, size: SizePart, ipversion: int): Result<Net, IPError> {
    match address
    case Raised(e) => Raised(BadAddress(e))
    case Ok(a) =>
      var version := if ipversion == 0 then a.version else ipversion;
      match ResolveSize(size, version)
      case Raised(e) => Raised(e)
      case Ok(p) => CheckedNet(Net(a.value, p, version))
  }

  /** The bits in which the two addresses of a range may differ. */
  function RangeBits(first: ParseResult, last: ParseResult): Result<nat, IPError> {
    if first.Raised? then Raised(BadAddress(first.error))
    else if first.value.version != 4 then Raised(FirstNotV4)
    else if last.Raised? then Raised(BadAddress(last.error))
    else if last.value.version != 4 then Raised(LastNotV4)
    else if last.value.value < first.value.value then Raised(LastBeforeFirst)
    else Ok(BitLength(last.value.value - first.value.value))
  }

  function MaskSize(mask: ParseResult): Result<SizePart, IPError> {
    match mask
    case Raised(e) => Raised(BadAddress(e))
    case Ok(m) =>
      if m.version != 4 then Raised(NetmaskNotV4)
      else
        match NetmaskToPrefixlen(m.value)
        case Raised(e) => Raised(BadNetmask(e))
        case Ok(p) => Ok(FromMask(p))
  }

  function SlashSize(t: string): Result<SizePart, IPError> {
    if '.' !in t then Ok(Digits(t)) else MaskSize(Parse(t))
  }

  function ConstructRange(first: ParseResult, last: ParseResult, ipversion: int): Result<Net, IPError> {
    match RangeBits(first, last)
    case Raised(e) => Raised(e)
    case Ok(netbits) => Finish(first, Unsized(netbits), ipversion)
  }

  function ConstructText(s: string, ipversion: int): Result<Net, IPError> {
    var x := Split(s, '-');
    if |x| == 2 then ConstructRange(Parse(x[0]), Parse(x[1]), ipversion)
    else if |x| > 2 then Raised(TooManyDashes)
    else
      var y := Split(s, '/');
      if |y| == 1 then Finish(Parse(y[0]), Unsized(0), ipversion)
      else if |y| > 2 then Raised(TooManySlashes)
      else
        match SlashSize(y[1])
        case Raised(e) => Raised(e)
        case Ok(size) => Finish(Parse(y[0]), size, ipversion)
  }

  /** The fields that `__init__` sets, or the error it raises; LoopsForever stands for the
      netmask on which it never returns. */
  function Construct(data: Data, ipversion: int): Result<Net, IPError> {
    match data
    case Number(n) =>
      var version := if ipversion != 0 then ipversion else if n < 0x1_0000_0000 then 4 else 6;
      if version == 4 then Ok(Net(n, 32, 4))
      else if version == 6 then Ok(Net(n, 128, 6))
      else Raised(UnsupportedVersion)
    case Copy(net) => Ok(net)
    case Text(s) => ConstructText(s, ipversion)
  }

  predicate Hangs(data: Data, ipversion: int) {
    Construct(data, ipversion) == Raised(BadNetmask(LoopsForever))
  }

  /** Every network read from a text is aligned to its prefix length. */
  lemma ConstructedIsAligned(s: string, ipversion: int)
    requires ipversion == 0 || KnownVersion(ipversion)
    ensures var r := ConstructText(s, ipversion);
            r.Ok? && KnownVersion(r.value.version) ==> Aligned(r.value)
  {
    var r := ConstructText(s, ipversion);
    if r.Ok? {
      CheckNetaddrMeaning(r.value.ip, r.value.prefixlen, r.value.version);
    }
  }

  // ---------------------------------------------------------------- printing

  /** The fields that steer `_printPrefix`. */
  datatype Style = Style(noPrefixForSingleIp: bool, wantPrefixLen: Option<int>)

  const DefaultStyle := Style(true, None)

  /** What addition leaves of prefix lengths that fit: they may become negative. */
  ghost predicate Sized(n: Net) {
    KnownVersion(n.version) && n.prefixlen <= BitsOf(n.version)
  }

  /** Which suffix is printed: 0 none, 2 the netmask, 3 the last address, else the prefix. */
  function SuffixKind(n: Net, style: Style, want: Option<int>): int
    requires KnownVersion(n.version)
  {
    if n.prefixlen == BitsOf(n.version) && style.noPrefixForSingleIp then 0
    else if want.Some? then want.value
    else if style.wantPrefixLen.Some? then style.wantPrefixLen.value
    else 1
  }

  function Prefixed(c: char, r: Result<string, AddressError>): Result<string, AddressError> {
    if r.Ok? then Ok([c] + r.value) else r
  }

  function Suffix(n: Net, style: Style, want: Option<int>): Result<string, AddressError>
    requires Sized(n)
  {
    SuffixOf(n, SuffixKind(n, style, want))
  }

  function SuffixOf(n: Net, kind: int): Result<string, AddressError>
    requires Sized(n)
  {
    if kind == 0 then Ok("")
    else if kind == 2 then
      if n.prefixlen < 0 then Raised(FractionalMask) else Prefixed('/', Print(Netmask(n), n.version))
    else if kind == 3 then Prefixed('-', Print(n.ip + Len(n) - 1, n.version))
    else Ok("/" + IntText(n.prefixlen))
  }

  function Wanted(style: Style, want: Option<int>): Option<int> {
    if style.wantPrefixLen == None && want == None then Some(1) else want
  }

  function Append(a: Result<string, AddressError>, b: Result<string, AddressError>): Result<string, AddressError> {
    if a.Raised? then a else if b.Raised? then b else Ok(a.value + b.value)
  }

  /** `strFullsize(want)` */
  function FullText(n: Net, style: Style, want: Option<int>): Result<string, AddressError>
    requires Sized(n)
  {
    Append(Print(n.ip, n.version), Suffix(n, style, Wanted(style, want)))
  }

  /** The address part of `strNormal`. */
  function NormalAddress(ip: int, version: int): Result<string, AddressError> {
    var full := Print(ip, version);
    if version == 6 && full.Ok? then Ok(Colons(GroupsOf(Hextet, ip, 8))) else full
  }

  /** `strNormal(want)` */
  function NormalText(n: Net, style: Style, want: Option<int>): Result<string, AddressError>
    requires Sized(n)
  {
    Append(NormalAddress(n.ip, n.version), Suffix(n, style, Wanted(style, want)))
  }

  /** `strCompressed(want)`; without a run of zeros the suffix is printed twice. */
  function CompressedText(n: Net, style: Style, want: Option<int>): Result<string, AddressError>
    requires Sized(n)
  {
    var w := Wanted(style, want);
    if n.version == 4 then FullText(n, style, w)
    else if Print(n.ip, 6).Raised? then Print(n.ip, 6)
    else
      var h := GroupsOf(Hextet, n.ip, 8);
      Append(if GapLength(h) > 1 then Ok(Compress(h)) else NormalText(n, style, None), Suffix(n, style, w))
  }

  // ---------------------------------------------------------------- the object

  class IPint {
    var ip: int
    var prefixlen: int
    var version: int
    var style: Style

    constructor ()
      ensures style == DefaultStyle
    {
      ip, prefixlen, version, style := 0, -1, 0, DefaultStyle;
    }

    function Value(): Net
      reads this
    {
      Net(ip, prefixlen, version)
    }

    /** The body of `__init__`. */
    method Init(data: Data, ipversion0: int) returns (r: Result<Net, IPError>)
      requires !Hangs(data, ipversion0)
      modifies this
      ensures r == Construct(data, ipversion0)
      ensures r.Ok? ==> Value() == r.value && style == DefaultStyle
    {
      style := DefaultStyle;
      var ipversion := ipversion0;
      match data {
        case Number(n) =>
          ip := n;
          if ipversion == 0 {
            ipversion := if ip < 0x1_0000_0000 then 4 else 6;
          }
          if ipversion == 4 {
            prefixlen := 32;
          } else if ipversion == 6 {
            prefixlen := 128;
          } else {
            return Raised(UnsupportedVersion);
          }
          version := ipversion;
        case Copy(net) =>
          version, prefixlen, ip := net.version, net.prefixlen, net.ip;
        case Text(s) =>
          r := InitText(s, ipversion);
          return;
      }
      r := Ok(Value());
    }

    method InitText(s: string, ipversion: int) returns (r: Result<Net, IPError>)
      requires ConstructText(s, ipversion) != Raised(BadNetmask(LoopsForever))
      modifies this
      ensures r == ConstructText(s, ipversion)
      ensures r.Ok? ==> Value() == r.value
      ensures style == old(style)
    {
      var x := Split(s, '-');
      if |x| == 2 {
        var netbits := ParseRange(x[0], x[1]);
        if netbits.Raised? {
          return Raised(netbits.error);
        }
        r := SetFields(x[0], Unsized(netbits.value), ipversion);
      } else if |x| == 1 {
        x := Split(s, '/');
        if |x| == 1 {
          r := SetFields(x[0], Unsized(0), ipversion);
        } else if |x| > 2 {
          return Raised(TooManySlashes);
        } else {
          var size := ParseSize(x[1]);
          if size.Raised? {
            return Raised(size.error);
          }
          r := SetFields(x[0], size.value, ipversion);
        }
      } else {
        return Raised(TooManyDashes);
      }
    }

    /** The first-last notation: the bits in which the two addresses may differ. */
    static method ParseRange(first: string, last: string) returns (r: Result<nat, IPError>)
      ensures r == RangeBits(Parse(first), Parse(last))
    {
      var a := Address.ParseAddress(first);
      if a.Raised? {
        return Raised(BadAddress(a.error));
      }
      if a.value.version != 4 {
        return Raised(FirstNotV4);
      }
      var b := Address.ParseAddress(last);
      if b.Raised? {
        return Raised(BadAddress(b.error));
      }
      if b.value.version != 4 {
        return Raised(LastNotV4);
      }
      if b.value.value < a.value.value {
        return Raised(LastBeforeFirst);
      }
      var size := b.value.value - a.value.value;
      var netbits := Count1Bits(size);
      return Ok(netbits);
    }

    static method ParseSize(t: string) returns (r: Result<SizePart, IPError>)
      requires SlashSize(t) != Raised(BadNetmask(LoopsForever))
      ensures r == SlashSize(t)
    {
      if '.' !in t {
        return Ok(Digits(t));
      }
      var m := Address.ParseAddress(t);
      if m.Raised? {
        return Raised(BadAddress(m.error));
      }
      if m.value.version != 4 {
        return Raised(NetmaskNotV4);
      }
      var p := NetmaskToPrefixlenOf(m.value.value);
      return if p.Ok? then Ok(FromMask(p.value)) else Raised(BadNetmask(p.error));
    }

    method SetFields(address: string, size: SizePart, ipversion0: int) returns (r: Result<Net, IPError>)
      modifies this
      ensures r == Finish(Parse(address), size, ipversion0)
      ensures r.Ok? ==> Value() == r.value
      ensures style == old(style)
    {
      var ipversion := ipversion0;
      var a := Address.ParseAddress(address);
      if a.Raised? {
        return Raised(BadAddress(a.error));
      }
      ip := a.value.value;
      if ipversion == 0 {
        ipversion := a.value.version;
      }
      var p := ResolveSize(size, ipversion);
      if p.Raised? {
        return Raised(p.error);
      }
      version := ipversion;
      prefixlen := p.value;
      r := CheckedNet(Value());
    }

    /** `_printPrefix` */
    method PrintPrefix(want0: Option<int>) returns (r: Result<string, AddressError>)
      requires Sized(Value())
      ensures r == Suffix(Value(), style, want0)
    {
      var want := want0;
      if (version == 4 && prefixlen == 32) || (version == 6 && prefixlen == 128) {
        if style.noPrefixForSingleIp {
          want := Some(0);
        }
      }
      if want == None {
        want := style.wantPrefixLen;
        if want == None {
          want := Some(1);
        }
      }
      r := PrintKind(want.value);
    }

    /** The second half: the suffix for a request that is known. */
    method PrintKind(want: int) returns (r: Result<string, AddressError>)
      requires Sized(Value())
      ensures r == SuffixOf(Value(), want)
    {
      if want != 0 {
        if want == 2 {
          if prefixlen < 0 {
            return Raised(FractionalMask);
          }
          r := Address.IntToIp(Netmask(Value()), version);
          r := Prefixed('/', r);
        } else if want == 3 {
          r := Address.IntToIp(ip + Len(Value()) - 1, version);
          r := Prefixed('-', r);
        } else {
          r := Ok("/" + IntText(prefixlen));
        }
      } else {
        r := Ok("");
      }
    }

    method StrFullsize(want0: Option<int>) returns (r: Result<string, AddressError>)
      requires Sized(Value())
      ensures r == FullText(Value(), style, want0)
    {
      var want := want0;
      if style.wantPrefixLen == None && want == None {
        want := Some(1);
      }
      r := Address.IntToIp(ip, version);
      var prefix := PrintPrefix(want);
      r := Append(r, prefix);
    }

    method StrNormal(want0: Option<int>) returns (r: Result<string, AddressError>)
      requires Sized(Value())
      ensures r == NormalText(Value(), style, want0)
    {
      var want := want0;
      if style.wantPrefixLen == None && want == None {
        want := Some(1);
      }
      r := Address.IntToIp(ip, version);
      if version == 6 && r.Ok? {
        var normal := PrintNormal(ip);
        r := Ok(normal);
      }
      var prefix := PrintPrefix(want);
      r := Append(r, prefix);
    }

    method StrCompressed(want0: Option<int>) returns (r: Result<string, AddressError>)
      requires Sized(Value())
      ensures r == CompressedText(Value(), style, want0)
    {
      var want := want0;
      if style.wantPrefixLen == None && want == None {
        want := Some(1);
      }
      if version == 4 {
        r := StrFullsize(want);
        return;
      }
      r := Address.IntToIp(ip, 6);
      if r.Raised? {
        return;
      }
      var h := HextetsFromFull(ip);
      if GapLength(h) > 1 {
        var compressed := PrintCompressed(ip);
        r := Ok(compressed);
      } else {
        r := StrNormal(None);
      }
      var prefix := PrintPrefix(want);
      r := Append(r, prefix);
    }
  }
}
