/** The address notations of IPy.py: what `parseAddress` reads from each text, what
    `intToIp` prints, and that the uncompressed notations are read back exactly. */
module Notation {
  import opened Prelude
  import opened PyText
  import opened Groups

  const MAX4 := 0xFFFF_FFFF
  const MAX6 := 0xFFFF_FFFF_FFFF_FFFF_FFFF_FFFF_FFFF_FFFF

  datatype AddressError =
    | BadNumeral          // int() or long() rejects the digits
    | AddressTooBig
    | TripleColon
    | TooManyHextets
    | TooFewHextets
    | RepeatedGap         // '::' more than once
    | NeedlessGap         // '::' beside eight parts
    | HextetOutOfRange
    | TailNotV4           // the assertion on a mixed address
    | TooManyBytes
    | ByteOutOfRange
    | NegativeAddress
    | FractionalMask      // a TypeError: the mask of a negative prefix length
    | UnknownVersion

  /** An address and the guess of its IP version. */
  datatype Parsed = Parsed(value: int, version: int)

  type ParseResult = Result<Parsed, AddressError>

  // ---------------------------------------------------------------- notations

  function Dotted(v: nat): string {
    Join(Texts(GroupsOf(Octet, v, 4), Decimal), '.')
  }

  function Full(v: nat): string {
    Join(FullTexts(GroupsOf(Hextet, v, 8)), ':')
  }

  /** A list of groups in the usual notation. */
  function Colons(g: seq<nat>): string {
    Join(Texts(g, Hex), ':')
  }

  // ---------------------------------------------------------------- reading

  predicate Is0x(s: string) {
    |s| >= 2 && s[0] == '0' && s[1] == 'x'
  }

  /** A plain number, whose size decides the version. */
  function ReadNumber(s: string, b: Base): ParseResult {
    match ReadInt(s, b, true)
    case None => Raised(BadNumeral)
    case Some(n) =>
      if n > MAX6 then Raised(AddressTooBig)
      else Ok(Parsed(n, if n <= MAX4 then 4 else 6))
  }

  /** `[f(x) for x in parts]`, None when one call raises. */
  function MapAll(f: string -> Option<int>, parts: seq<string>): (r: Option<seq<int>>)
    ensures r.Some? ==> |r.value| == |parts|
  {
    if parts == [] then Some([])
    else
      match (MapAll(f, parts[..|parts| - 1]), f(parts[|parts| - 1]))
      case (Some(front), Some(n)) => Some(front + [n])
      case _ => None
  }

  function ReadByte(x: string): Option<int> {
    ReadInt(x, Decimal, true)
  }

  function ReadDotted(s: string): ParseResult {
    var parts := Split(s, '.');
    if |parts| > 4 then Raised(TooManyBytes)
    else
      match MapAll(ReadByte, parts + ZeroParts(4 - |parts|))
      case None => Raised(BadNumeral)
      case Some(b) => PackBytes(b)
  }

  function PackBytes(b: seq<int>): ParseResult
    requires |b| == 4
  {
    if exists i :: 0 <= i < 4 && (b[i] > 255 || b[i] < 0) then Raised(ByteOutOfRange)
    else Ok(Parsed(0x100_0000 * b[0] + 0x1_0000 * b[1] + 0x100 * b[2] + b[3], 4))
  }

  /** The notations without a colon. */
  function ReadSolo(s: string): ParseResult {
    if Is0x(s) then ReadNumber(s[2..], Hex)
    else if |s| == 32 then
      match ReadInt(s, Hex, true)
      case None => Raised(BadNumeral)
      case Some(n) => Ok(Parsed(n, 6))
    else if '.' in s then ReadDotted(s)
    else if |s| < 4 then
      match ReadInt(s, Decimal, false)
      case None => Raised(BadNumeral)
      case Some(n) => if n < 256 then ReadDotted(s) else ReadNumber(s, Decimal)
    else ReadNumber(s, Decimal)
  }

  predicate HasTripleColon(s: string) {
    exists i :: 0 <= i < |s| - 2 && s[i] == ':' && s[i + 1] == ':' && s[i + 2] == ':'
  }

  /** `hex(n)[2:-1]` of a Python long. */
  function HexTail(n: int): string {
    if n >= 0 then Numeral(n, Hex) else "x" + Numeral(-n, Hex)
  }

  /** The last part of a mixed address replaced by the two hextets it stands for. */
  function ExpandTail(parts: seq<string>): Result<seq<string>, AddressError>
    requires |parts| >= 1
  {
    match ReadSolo(parts[|parts| - 1])
    case Raised(e) => Raised(e)
    case Ok(v4) =>
      if v4.version != 4 then Raised(TailNotV4)
      else Ok(parts[..|parts| - 1] + [HexTail(v4.value / 65536), HexTail(v4.value % 65536)])
  }

  function GapIndex(parts: seq<string>): (i: nat)
    requires "" in parts
    ensures i < |parts| && parts[i] == "" && "" !in parts[..i]
  {
    if parts[0] == "" then 0 else 1 + GapIndex(parts[1..])
  }

  /** Two adjacent empty parts made one, as happens for a gap at the start or the end. */
  function MergeGap(parts: seq<string>): (r: seq<string>)
    requires "" in parts
    ensures "" in r && |r| <= |parts|
  {
    var i := GapIndex(parts);
    if i < |parts| - 1 && parts[i + 1] == "" then
      assert parts[..i] + parts[i + 1..] == parts[..i] + [""] + parts[i + 2..];
      parts[..i] + parts[i + 1..]
    else parts
  }

  function ZeroParts(n: nat): (r: seq<string>)
    ensures |r| == n && forall i :: 0 <= i < n ==> r[i] == "0"
  {
    seq(n, _ => "0")
  }

  /** The gap replaced by as many zero hextets as are missing. */
  function FillGap(parts: seq<string>): (r: seq<string>)
    requires "" in parts && |parts| < 8
    ensures |r| == 8
  {
    var p := MergeGap(MergeGap(parts));
    var i := GapIndex(p);
    p[..i] + ZeroParts(9 - |p|) + p[i + 1..]
  }

  function Pad4(x: string): string {
    if |x| < 4 then Zeros(4 - |x|) + x else x
  }

  /** All hextets, padded and checked one by one, as one hexadecimal text. */
  function HextetDigits(parts: seq<string>): Result<string, AddressError> {
    if parts == [] then Ok("")
    else
      match HextetDigits(parts[..|parts| - 1])
      case Raised(e) => Raised(e)
      case Ok(num) => AddHextet(num, parts[|parts| - 1])
  }

  function AddHextet(num: string, hextet: string): Result<string, AddressError> {
    var x := Pad4(hextet);
    match ReadInt(x, Hex, false)
    case None => Raised(BadNumeral)
    case Some(n) => if n < 0 || n > 0xFFFF then Raised(HextetOutOfRange) else Ok(num + x)
  }

  function ReadHextets(parts: seq<string>): ParseResult {
    if "" in parts then Raised(NeedlessGap)
    else
      match HextetDigits(parts)
      case Raised(e) => Raised(e)
      case Ok(num) =>
        match ReadInt(num, Hex, true)
        case None => Raised(BadNumeral)
        case Some(n) => Ok(Parsed(n, 6))
  }

  function ReadParts(parts: seq<string>): ParseResult {
    if |parts| > 8 then Raised(TooManyHextets)
    else if |parts| < 8 then
      if "" !in parts then Raised(TooFewHextets)
      else if "" in FillGap(parts) then Raised(RepeatedGap)
      else ReadHextets(FillGap(parts))
    else ReadHextets(parts)
  }

  /** The notations with a colon. */
  function ReadColons(s: string): ParseResult {
    if HasTripleColon(s) then Raised(TripleColon)
    else
      var parts := Split(s, ':');
      if '.' in s then
        match ExpandTail(parts)
        case Raised(e) => Raised(e)
        case Ok(expanded) => ReadParts(expanded)
      else ReadParts(parts)
  }

  /** What `parseAddress` returns for each text. */
  function Parse(s: string): ParseResult {
    if Is0x(s) then ReadNumber(s[2..], Hex)
    else if ':' in s then ReadColons(s)
    else ReadSolo(s)
  }

  /** What `intToIp` returns. */
  function Print(ip: int, version: int): Result<string, AddressError> {
    if ip < 0 then Raised(NegativeAddress)
    else if version == 4 then if ip > MAX4 then Raised(AddressTooBig) else Ok(Dotted(ip))
    else if version == 6 then if ip > MAX6 then Raised(AddressTooBig) else Ok(Full(ip))
    else Raised(UnknownVersion)
  }

  // ---------------------------------------------------------------- limits

  lemma Limits()
    ensures Limit(Octet, 4) == MAX4 + 1
    ensures Limit(Hextet, 8) == MAX6 + 1
    ensures Limit(Hextet, 2) == MAX4 + 1
  {
    assert Limit(Octet, 2) == 65536;
    assert Limit(Hextet, 2) == 0x1_0000_0000;
    assert Limit(Hextet, 4) == 0x1_0000_0000_0000_0000;
    assert Limit(Hextet, 6) == 0x1_0000_0000_0000_0000_0000_0000;
  }

  // ---------------------------------------------------------------- IPv4 read back

  lemma {:induction false} MapAllValues(f: string -> Option<int>, parts: seq<string>, values: seq<int>)
    requires |parts| == |values|
    requires forall i :: 0 <= i < |parts| ==> f(parts[i]) == Some(values[i])
    ensures MapAll(f, parts) == Some(values)
  {
    if parts != [] {
      var n := |parts| - 1;
      MapAllValues(f, parts[..n], values[..n]);
      assert values == values[..n] + [values[n]];
    }
  }

  lemma ReadAllNumerals(g: seq<nat>)
    ensures MapAll(ReadByte, Texts(g, Decimal)) == Some(g)
  {
    forall i | 0 <= i < |g| ensures ReadByte(Texts(g, Decimal)[i]) == Some(g[i]) {
      ReadNumeral(g[i], Decimal, true);
    }
    MapAllValues(ReadByte, Texts(g, Decimal), g);
  }

  lemma DottedShape(v: nat)
    ensures Split(Dotted(v), '.') == Texts(GroupsOf(Octet, v, 4), Decimal)
    ensures '.' in Dotted(v) && 7 <= |Dotted(v)| <= 15
    ensures forall c :: c in Dotted(v) ==> c == '.' || DigitOf(c) < 10
  {
    var g := GroupsOf(Octet, v, 4);
    var t := Texts(g, Decimal);
    TextsFree(g, Decimal, '.');
    SplitJoin(t, '.');
    JoinHasSep(t, '.');
    forall i | 0 <= i < 4 ensures 1 <= |t[i]| <= 3 {
      Power4();
      PadNumeral(g[i], Decimal, 3);
    }
    assert t == [t[0], t[1], t[2], t[3]];
    JoinFour(t[0], t[1], t[2], t[3], '.');
    forall c | c in Dotted(v) ensures c == '.' || DigitOf(c) < 10 {
      if c != '.' && DigitOf(c) >= 10 {
        TextsFree(g, Decimal, c);
        JoinFree(t, '.', c);
      }
    }
  }

  lemma JoinFour(a: string, b: string, c: string, d: string, sep: char)
    ensures Join([a, b, c, d], sep) == a + [sep] + (b + [sep] + (c + [sep] + d))
  {
    assert [a, b, c, d][1..] == [b, c, d];
    assert [b, c, d][1..] == [c, d];
    assert [c, d][1..] == [d];
    assert Join([d], sep) == d;
    assert Join([c, d], sep) == c + [sep] + d;
    assert Join([b, c, d], sep) == b + [sep] + Join([c, d], sep);
  }

  lemma No0x(s: string)
    requires 'x' !in s
    ensures !Is0x(s)
  {
    if |s| >= 2 {
      assert s[1] in s;
    }
  }

  /** Reading a dotted quad gives the number it was written from. */
  lemma ParseDotted(v: nat)
    requires v <= MAX4
    ensures Parse(Dotted(v)) == Ok(Parsed(v, 4))
    ensures ReadSolo(Dotted(v)) == Ok(Parsed(v, 4))
  {
    var g := GroupsOf(Octet, v, 4);
    PartialShape(g);
    DottedForm(Dotted(v));
    ParsePartial(g, g);
    Limits();
    FromGroupsOf(Octet, v, 4);
  }

  lemma DottedForm(s: string)
    requires !Is0x(s) && ':' !in s && '.' in s && |s| != 32
    ensures Parse(s) == ReadSolo(s) == ReadDotted(s)
  {
  }

  lemma FourBytes(g: seq<nat>)
    requires |g| == 4
    ensures FromGroups(Octet, g) == 0x100_0000 * g[0] + 0x1_0000 * g[1] + 0x100 * g[2] + g[3]
  {
    var g3, g2, g1 := g[..3], g[..2], g[..1];
    assert g3[..2] == g2 && g2[..1] == g1 && g1[..0] == [];
    assert FromGroups(Octet, g1) == g[0];
    assert FromGroups(Octet, g2) == 256 * g[0] + g[1];
    assert FromGroups(Octet, g3) == 256 * (256 * g[0] + g[1]) + g[2];
  }

  // ---------------------------------------------------------------- IPv6 read back

  /** Hexadecimal digits, of any number and case, for the hextet n. */
  ghost predicate Spells(x: string, n: nat) {
    x != "" && AllDigits(x, Hex) && DigitsValue(x, Hex) == n && n < 65536
  }

  ghost predicate AllSpell(parts: seq<string>, g: seq<nat>) {
    |parts| == |g| && forall i :: 0 <= i < |g| ==> Spells(parts[i], g[i])
  }

  /** At most four digits each. */
  predicate Short(parts: seq<string>) {
    forall i :: 0 <= i < |parts| ==> |parts[i]| <= 4
  }

  lemma TextsSpell(g: seq<nat>)
    requires InRange(Hextet, g)
    ensures AllSpell(Texts(g, Hex), g) && Short(Texts(g, Hex))
  {
    forall i | 0 <= i < |g| ensures Spells(Texts(g, Hex)[i], g[i]) && |Texts(g, Hex)[i]| <= 4 {
      Power4();
      PadNumeral(g[i], Hex, 4);
      NumeralValue(g[i], Hex);
    }
  }

  lemma FullTextsSpell(g: seq<nat>)
    requires InRange(Hextet, g)
    ensures AllSpell(FullTexts(g), g) && Short(FullTexts(g))
  {
    forall i | 0 <= i < |g| ensures Spells(FullTexts(g)[i], g[i]) {
      Power4();
      FixedDigitsValue(g[i], Hex, 4);
    }
  }

  lemma SpelledPart(x: string, n: nat)
    requires Spells(x, n)
    ensures AllDigits(Pad4(x), Hex) && DigitsValue(Pad4(x), Hex) == n
    ensures |Pad4(x)| == if |x| < 4 then 4 else |x|
    ensures forall num :: AddHextet(num, x) == Ok(num + Pad4(x))
  {
    if |x| < 4 {
      PaddedValue(4 - |x|, x, Hex);
    }
    ReadDigits(Pad4(x), Hex, false);
  }

  lemma SpelledNonempty(parts: seq<string>, g: seq<nat>)
    requires AllSpell(parts, g)
    ensures "" !in parts
  {
    forall i | 0 <= i < |parts| ensures parts[i] != "" {
      assert Spells(parts[i], g[i]);
    }
  }

  /** The padded parts one after the other. */
  function PaddedText(parts: seq<string>): string {
    if parts == [] then "" else PaddedText(parts[..|parts| - 1]) + Pad4(parts[|parts| - 1])
  }

  lemma {:induction false} SpelledDigits(parts: seq<string>, g: seq<nat>)
    requires AllSpell(parts, g)
    ensures HextetDigits(parts) == Ok(PaddedText(parts))
    ensures AllDigits(PaddedText(parts), Hex) && (parts != [] ==> PaddedText(parts) != "")
  {
    if parts != [] {
      var n := |parts| - 1;
      SpelledDigits(parts[..n], g[..n]);
      SpelledPart(parts[n], g[n]);
    }
  }

  /** A part of more than four digits does no harm if everything before it is zero. */
  ghost predicate Unshifted(parts: seq<string>, g: seq<nat>)
    requires |parts| == |g|
  {
    forall i :: 0 <= i < |parts| && |parts[i]| > 4 ==> FromGroups(Hextet, g[..i]) == 0
  }

  lemma {:induction false} PowerGrows(k: nat)
    requires k >= 4
    ensures Power(Hex, k) >= 65536 && (k > 4 ==> Power(Hex, k) > 65536)
  {
    Power4();
    if k > 4 {
      PowerGrows(k - 1);
    }
  }

  lemma ShiftCompare(v: nat, w: nat, p: nat)
    requires v >= w && p >= 65536
    ensures v * p >= w * 65536
    ensures v * p == w * 65536 <==> v == w && (p == 65536 || w == 0)
  {
    assert v * p == w * 65536 + (v - w) * 65536 + v * (p - 65536);
    NatProduct(v, p - 65536);
  }

  lemma NatProduct(a: nat, b: nat)
    ensures a * b >= 0 && (a * b == 0 <==> a == 0 || b == 0)
  {
  }

  lemma UnshiftedStep(parts: seq<string>, g: seq<nat>)
    requires |parts| == |g| && parts != []
    ensures Unshifted(parts, g)
       <==> Unshifted(parts[..|parts| - 1], g[..|parts| - 1])
            && (|parts[|parts| - 1]| > 4 ==> FromGroups(Hextet, g[..|parts| - 1]) == 0)
  {
    var n := |parts| - 1;
    forall i | 0 <= i < n ensures parts[..n][i] == parts[i] && g[..n][..i] == g[..i] {
    }
  }

  lemma PaddedStep(front: string, x: string, w: nat)
    requires |x| >= 4 && DigitsValue(front, Hex) >= w
    ensures DigitsValue(front + x, Hex) >= w * 65536 + DigitsValue(x, Hex)
    ensures DigitsValue(front + x, Hex) == w * 65536 + DigitsValue(x, Hex)
       <==> DigitsValue(front, Hex) == w && (|x| == 4 || w == 0)
  {
    DigitsValueAppend(front, x, Hex);
    Power4();
    PowerGrows(|x|);
    ShiftCompare(DigitsValue(front, Hex), w, Power(Hex, |x|));
  }

  /** A number that is at least the wanted one, and equal to it under a condition only. */
  predicate Exceeds(v: nat, w: nat, unless: bool) {
    v >= w && (v == w <==> unless)
  }

  lemma PaddedLast(front: string, x: string, w: nat, n: nat, ok: bool)
    requires Spells(x, n) && Exceeds(DigitsValue(front, Hex), w, ok)
    ensures Exceeds(DigitsValue(front + Pad4(x), Hex), w * 65536 + n, ok && (|x| > 4 ==> w == 0))
  {
    SpelledPart(x, n);
    PaddedStep(front, Pad4(x), w);
  }

  /** The padded text denotes the groups, or a greater number: exactly then, when a part of
      more than four digits follows one that is not zero. */
  lemma {:induction false} PaddedTextValue(parts: seq<string>, g: seq<nat>)
    requires AllSpell(parts, g)
    ensures Exceeds(DigitsValue(PaddedText(parts), Hex), FromGroups(Hextet, g), Unshifted(parts, g))
  {
    if parts != [] {
      var n := |parts| - 1;
      PaddedTextValue(parts[..n], g[..n]);
      UnshiftedStep(parts, g);
      PaddedLast(PaddedText(parts[..n]), parts[n], FromGroups(Hextet, g[..n]), g[n], Unshifted(parts[..n], g[..n]));
    }
  }

  lemma ReadWide(parts: seq<string>, g: seq<nat>)
    requires AllSpell(parts, g) && |g| == 8
    ensures ReadParts(parts) == Ok(Parsed(DigitsValue(PaddedText(parts), Hex), 6))
  {
    SpelledNonempty(parts, g);
    SpelledDigits(parts, g);
    ReadDigits(PaddedText(parts), Hex, true);
  }

  lemma ReadSpelled(parts: seq<string>, g: seq<nat>)
    requires AllSpell(parts, g) && |g| == 8 && Short(parts)
    ensures ReadParts(parts) == Ok(Parsed(FromGroups(Hextet, g), 6))
  {
    ReadWide(parts, g);
    PaddedTextValue(parts, g);
  }

  /** Not empty, and neither starting, ending nor broken by a doubled colon. */
  ghost predicate Tight(s: string) {
    && s != "" && s[0] != ':' && s[|s| - 1] != ':'
    && forall i :: 0 <= i < |s| - 1 ==> s[i] != ':' || s[i + 1] != ':'
  }

  lemma {:induction false} JoinTight(parts: seq<string>)
    requires |parts| >= 1 && Free(parts, ':') && "" !in parts
    ensures Tight(Join(parts, ':'))
  {
    assert parts[0] in parts;
    if |parts| > 1 {
      JoinTight(parts[1..]);
      var s, rest := Join(parts, ':'), Join(parts[1..], ':');
      var n := |parts[0]|;
      forall i | 0 <= i < |s| - 1 ensures s[i] != ':' || s[i + 1] != ':' {
        if i > n {
          assert s[i] == rest[i - n - 1] && s[i + 1] == rest[i - n];
        }
      }
    }
  }

  lemma SpelledFree(parts: seq<string>, g: seq<nat>, c: char)
    requires AllSpell(parts, g) && DigitOf(c) >= 16
    ensures Free(parts, c)
  {
    forall p | p in parts ensures c !in p {
      var i :| 0 <= i < |parts| && parts[i] == p;
      DigitsFree(p, Hex, c);
    }
  }

  lemma SpelledText(parts: seq<string>, g: seq<nat>)
    requires AllSpell(parts, g) && |g| >= 2
    ensures var s := Join(parts, ':');
            && !Is0x(s) && ':' in s && '.' !in s && !HasTripleColon(s) && Split(s, ':') == parts
  {
    SpelledFree(parts, g, ':');
    SpelledFree(parts, g, '.');
    SpelledFree(parts, g, 'x');
    SpelledNonempty(parts, g);
    JoinFree(parts, ':', '.');
    JoinFree(parts, ':', 'x');
    JoinHasSep(parts, ':');
    JoinTight(parts);
    SplitJoin(parts, ':');
    No0x(Join(parts, ':'));
  }

  /** Eight hextets of up to four digits each, joined by colons, denote their number. */
  lemma ParseColonJoin(parts: seq<string>, g: seq<nat>)
    requires AllSpell(parts, g) && |g| == 8 && Short(parts)
    ensures Parse(Join(parts, ':')) == Ok(Parsed(FromGroups(Hextet, g), 6))
  {
    SpelledText(parts, g);
    ReadSpelled(parts, g);
  }

  /** Longer hextets are accepted as well, but then the text denotes its groups only if
      nothing but zeros comes before each of them. */
  lemma LongHextetsShift(parts: seq<string>, g: seq<nat>)
    requires AllSpell(parts, g) && |g| == 8
    ensures Parse(Join(parts, ':')).Ok?
    ensures Parse(Join(parts, ':')) == Ok(Parsed(FromGroups(Hextet, g), 6)) <==> Unshifted(parts, g)
  {
    SpelledText(parts, g);
    ReadWide(parts, g);
    PaddedTextValue(parts, g);
  }

  /** Both uncompressed IPv6 notations are read back to the number they show. */
  lemma ParseFull(v: nat)
    requires v <= MAX6
    ensures Parse(Full(v)) == Ok(Parsed(v, 6))
    ensures Parse(Colons(GroupsOf(Hextet, v, 8))) == Ok(Parsed(v, 6))
  {
    var g := GroupsOf(Hextet, v, 8);
    Limits();
    FromGroupsOf(Hextet, v, 8);
    FullTextsSpell(g);
    TextsSpell(g);
    ParseColonJoin(FullTexts(g), g);
    ParseColonJoin(Texts(g, Hex), g);
  }

  // ---------------------------------------------------------------- mixed notation

  /** Hextets and a dotted quad for the last two. */
  function Mixed(a: seq<string>, v4: nat): string {
    Join(a + [Dotted(v4)], ':')
  }

  /** The two hextets that the quad stands for. */
  function TailTexts(v4: nat): seq<string> {
    Texts(GroupsOf(Hextet, v4, 2), Hex)
  }

  lemma DottedTail(a: seq<string>, v4: nat)
    requires v4 <= MAX4
    ensures ExpandTail(a + [Dotted(v4)]) == Ok(a + TailTexts(v4))
  {
    ParseDotted(v4);
    TwoHextets(v4);
    assert (a + [Dotted(v4)])[..|a|] == a;
    assert TailTexts(v4) == [HexTail(v4 / 65536), HexTail(v4 % 65536)];
  }

  lemma MixedShape(a: seq<string>, g: seq<nat>, v4: nat)
    requires AllSpell(a, g) && |a| >= 1
    ensures !Is0x(Mixed(a, v4)) && ':' in Mixed(a, v4) && '.' in Mixed(a, v4)
    ensures !HasTripleColon(Mixed(a, v4))
    ensures Split(Mixed(a, v4), ':') == a + [Dotted(v4)]
  {
    var parts := a + [Dotted(v4)];
    MixedSide(a, g, v4);
    No0x(Join(parts, ':'));
    JoinHasSep(parts, ':');
    SplitJoin(parts, ':');
  }

  lemma MixedSide(a: seq<string>, g: seq<nat>, v4: nat)
    requires AllSpell(a, g)
    ensures var parts := a + [Dotted(v4)];
            && "" !in parts && Free(parts, ':') && 'x' !in Join(parts, ':') && '.' in Join(parts, ':')
            && Tight(Join(parts, ':'))
  {
    var parts := a + [Dotted(v4)];
    DottedShape(v4);
    SpelledNonempty(a, g);
    SpelledFree(a, g, ':');
    SpelledFree(a, g, 'x');
    assert Free(parts, ':') && Free(parts, 'x');
    JoinFree(parts, ':', 'x');
    JoinTight(parts);
    JoinEnds(a, Dotted(v4), '.');
  }

  lemma JoinEnds(a: seq<string>, last: string, c: char)
    requires c in last
    ensures c in Join(a + [last], ':')
  {
    if a != [] {
      JoinAppend(a, [last], ':');
    } else {
      assert a + [last] == [last];
    }
  }

  /** The alternative form of section 2.2 of RFC 4291 denotes the hextets followed by the
      32 bits of the dotted quad. */
  lemma ParseMixed(a: seq<string>, g: seq<nat>, v4: nat, n: nat)
    requires AllSpell(a, g) && |g| == 6 && Short(a) && v4 <= MAX4
    requires n == FromGroups(Hextet, g) * 0x1_0000_0000 + v4
    ensures Parse(Mixed(a, v4)) == Ok(Parsed(n, 6))
  {
    MixedReads(a, g, v4);
    TailSpells(a, g, v4);
    TailValue(g, v4);
    ReadsAs(Mixed(a, v4), a + TailTexts(v4), g + GroupsOf(Hextet, v4, 2), n);
  }

  lemma ReadsAs(s: string, parts: seq<string>, g: seq<nat>, n: nat)
    requires Parse(s) == ReadParts(parts)
    requires AllSpell(parts, g) && Short(parts) && |g| == 8 && FromGroups(Hextet, g) == n
    ensures Parse(s) == Ok(Parsed(n, 6))
  {
    ReadSpelled(parts, g);
  }

  lemma MixedReads(a: seq<string>, g: seq<nat>, v4: nat)
    requires AllSpell(a, g) && |a| >= 1 && v4 <= MAX4
    ensures Parse(Mixed(a, v4)) == ReadParts(a + TailTexts(v4))
  {
    MixedShape(a, g, v4);
    DottedTail(a, v4);
    DottedColons(Mixed(a, v4), a + [Dotted(v4)], a + TailTexts(v4));
  }

  lemma DottedColons(s: string, parts: seq<string>, expanded: seq<string>)
    requires !Is0x(s) && ':' in s && '.' in s && !HasTripleColon(s)
    requires Split(s, ':') == parts && ExpandTail(parts) == Ok(expanded)
    ensures Parse(s) == ReadParts(expanded)
  {
    assert Parse(s) == ReadColons(s);
  }

  lemma TailValue(g: seq<nat>, v4: nat)
    requires v4 <= MAX4
    ensures FromGroups(Hextet, g + GroupsOf(Hextet, v4, 2)) == FromGroups(Hextet, g) * 0x1_0000_0000 + v4
  {
    TwoHextets(v4);
    TwoMore(g, v4 / 65536, v4 % 65536);
  }

  lemma TailSpells(a: seq<string>, g: seq<nat>, v4: nat)
    requires AllSpell(a, g) && Short(a)
    ensures AllSpell(a + TailTexts(v4), g + GroupsOf(Hextet, v4, 2)) && Short(a + TailTexts(v4))
  {
    TextsSpell(GroupsOf(Hextet, v4, 2));
  }

  lemma TwoHextets(v: nat)
    requires v <= MAX4
    ensures GroupsOf(Hextet, v, 2) == [v / 65536, v % 65536]
  {
    GroupsLast(Hextet, v, 2);
    GroupsLast(Hextet, v / 65536, 1);
    assert GroupsOf(Hextet, v, 2)[..1] == [v / 65536];
  }

  lemma TwoMore(g: seq<nat>, hi: nat, lo: nat)
    ensures FromGroups(Hextet, g + [hi, lo]) == FromGroups(Hextet, g) * 0x1_0000_0000 + hi * 65536 + lo
  {
    var whole := g + [hi, lo];
    assert whole[..|whole| - 1] == g + [hi];
    assert (g + [hi])[..|g|] == g;
  }

  // ---------------------------------------------------------------- plain numbers

  /** The version that a number is taken for. */
  function GuessVersion(n: nat): int {
    if n <= MAX4 then 4 else 6
  }

  /** A hexadecimal number with 0x in front. */
  lemma ParseHexNumber(n: nat)
    requires n <= MAX6
    ensures Parse("0x" + Numeral(n, Hex)) == Ok(Parsed(n, GuessVersion(n)))
  {
    assert ("0x" + Numeral(n, Hex))[2..] == Numeral(n, Hex);
    ReadNumeral(n, Hex, true);
  }

  /** Any 32 hexadecimal digits. */
  lemma ParsePureHex(t: string)
    requires |t| == 32 && AllDigits(t, Hex)
    ensures Parse(t) == Ok(Parsed(DigitsValue(t, Hex), 6))
  {
    DigitsFree(t, Hex, 'x');
    DigitsFree(t, Hex, ':');
    No0x(t);
    ReadDigits(t, Hex, true);
  }

  /** Read as hexadecimal, decimal digits denote a greater number. */
  lemma {:induction false} HexIsGreater(s: string)
    requires AllDigits(s, Decimal)
    ensures DigitsValue(s, Hex) >= DigitsValue(s, Decimal)
    ensures DigitsValue(s, Decimal) >= 10 ==> DigitsValue(s, Hex) > DigitsValue(s, Decimal)
  {
    if s != "" {
      var n := |s| - 1;
      assert DigitOf(s[n]) < 10;
      HexIsGreater(s[..n]);
    }
  }

  /** What a decimal number is read as: a first byte below 256, and hexadecimal digits if
      there are 32 of them. */
  lemma DecimalForms(n: nat)
    ensures var s := Numeral(n, Decimal);
            && Parse(s) == ReadSolo(s) && ReadInt(s, Decimal, true) == ReadInt(s, Decimal, false) == Some(n)
            && (n < 256 ==> |s| <= 3 && ReadSolo(s) == ReadDotted(s))
            && (n >= 256 && |s| != 32 ==> ReadSolo(s) == ReadNumber(s, Decimal))
            && (|s| == 32 ==> ReadInt(s, Hex, true) == Some(DigitsValue(s, Hex)))
  {
    var s := Numeral(n, Decimal);
    DigitsFree(s, Decimal, 'x');
    DigitsFree(s, Decimal, ':');
    DigitsFree(s, Decimal, '.');
    No0x(s);
    ReadNumeral(n, Decimal, true);
    ReadNumeral(n, Decimal, false);
    ReadDigits(s, Hex, true);
    Power4();
    if n < 256 {
      PadNumeral(n, Decimal, 3);
    }
  }

  /** Missing bytes are zero. */
  ghost predicate Completes(full: seq<nat>, g: seq<nat>) {
    1 <= |g| <= |full| == 4 && full[..|g|] == g && forall i :: |g| <= i < 4 ==> full[i] == 0
  }

  lemma ReadPadded(s: string, g: seq<nat>, full: seq<nat>)
    requires Split(s, '.') == Texts(g, Decimal) && Completes(full, g)
    ensures ReadDotted(s) == PackBytes(full)
  {
    ReadAllNumerals(full);
    assert Numeral(0, Decimal) == "0";
    assert Texts(g, Decimal) + ZeroParts(4 - |g|) == Texts(full, Decimal) by {
      forall i | 0 <= i < |g| ensures g[i] == full[i] {
        assert full[..|g|][i] == full[i];
      }
    }
  }

  /** Two to four bytes separated by dots are the upper bytes of an IPv4 address. */
  lemma ParsePartial(g: seq<nat>, full: seq<nat>)
    requires |g| >= 2 && InRange(Octet, g) && Completes(full, g)
    ensures Parse(Join(Texts(g, Decimal), '.')) == PackBytes(full) == Ok(Parsed(FromGroups(Octet, full), 4))
  {
    var s := Join(Texts(g, Decimal), '.');
    PartialShape(g);
    DottedForm(s);
    ReadPadded(s, g, full);
    CompletedBytes(g, full);
  }

  lemma CompletedBytes(g: seq<nat>, full: seq<nat>)
    requires InRange(Octet, g) && Completes(full, g)
    ensures PackBytes(full) == Ok(Parsed(FromGroups(Octet, full), 4))
  {
    FourBytes(full);
    forall i | 0 <= i < 4 ensures full[i] <= 255 {
      assert i < |g| ==> full[i] == full[..|g|][i] == g[i] < Size(Octet);
    }
  }

  lemma PartialShape(g: seq<nat>)
    requires 2 <= |g| <= 4 && InRange(Octet, g)
    ensures var s := Join(Texts(g, Decimal), '.');
            !Is0x(s) && ':' !in s && '.' in s && |s| != 32 && Split(s, '.') == Texts(g, Decimal)
  {
    var t := Texts(g, Decimal);
    TextsFree(g, Decimal, '.');
    TextsFree(g, Decimal, ':');
    TextsFree(g, Decimal, 'x');
    JoinFree(t, '.', ':');
    JoinFree(t, '.', 'x');
    No0x(Join(t, '.'));
    JoinHasSep(t, '.');
    SplitJoin(t, '.');
    forall i | 0 <= i < |g| ensures |t[i]| <= 3 {
      Power4();
      assert g[i] < Size(Octet);
      PadNumeral(g[i], Decimal, 3);
    }
    JoinLength(t, '.', 3);
  }

  lemma {:induction false} JoinLength(parts: seq<string>, sep: char, n: nat)
    requires forall i :: 0 <= i < |parts| ==> |parts[i]| <= n
    ensures |Join(parts, sep)| <= |parts| * (n + 1)
  {
    if |parts| > 1 {
      JoinLength(parts[1..], sep, n);
    }
  }

  lemma FirstByte(n: nat)
    requires n < 256
    ensures ReadDotted(Numeral(n, Decimal)) == Ok(Parsed(0x100_0000 * n, 4))
  {
    OnePart(n);
    ReadPadded(Numeral(n, Decimal), [n], [n, 0, 0, 0]);
    PackFirst(n);
  }

  lemma OnePart(n: nat)
    ensures Split(Numeral(n, Decimal), '.') == Texts([n], Decimal)
  {
    DigitsFree(Numeral(n, Decimal), Decimal, '.');
    SplitFree(Numeral(n, Decimal), '.');
  }

  lemma PackFirst(n: nat)
    requires n < 256
    ensures PackBytes([n, 0, 0, 0]) == Ok(Parsed(0x100_0000 * n, 4))
  {
  }

  /** A decimal number denotes itself exactly if it is 0, or at least 256 and not of 32
      digits. */
  lemma ParseDecimal(n: nat)
    requires n <= MAX6
    ensures Parse(Numeral(n, Decimal)) == Ok(Parsed(n, GuessVersion(n)))
       <==> n == 0 || (n >= 256 && |Numeral(n, Decimal)| != 32)
  {
    var s := Numeral(n, Decimal);
    DecimalForms(n);
    NumeralValue(n, Decimal);
    if n < 256 {
      FirstByte(n);
    } else if |s| == 32 {
      HexIsGreater(s);
    }
  }
}
