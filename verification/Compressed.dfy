/** The compressed IPv6 notation (section 2.2 of RFC 4291): which run of zeros is cut
    out, the list editing that prints it, and exactly when the text is read back. */
module Compressed {
  import opened Prelude
  import opened PyText
  import opened Groups
  import opened Notation
  import Address

  // ---------------------------------------------------------------- zero runs

  /** Number of zeros at the beginning of a list. */
  function CountFollowingZeros(l: seq<int>): nat {
    if |l| == 0 then 0
    else if l[0] != 0 then 0
    else 1 + CountFollowingZeros(l[1..])
  }

  /** The length of the run of zeros that starts at position i. */
  function Run(h: seq<nat>, i: nat): nat
    requires i <= |h|
  {
    CountFollowingZeros(h[i..])
  }

  /** A run is as long as it can be. */
  lemma {:induction false} RunMeaning(h: seq<nat>, i: nat)
    requires i <= |h|
    ensures i + Run(h, i) <= |h|
    ensures forall k :: i <= k < i + Run(h, i) ==> h[k] == 0
    ensures i + Run(h, i) < |h| ==> h[i + Run(h, i)] != 0
    decreases |h| - i
  {
    if i < |h| {
      assert h[i..][1..] == h[i + 1..];
      RunMeaning(h, i + 1);
    }
  }

  /** The position of the first longest run among the first n positions. */
  function FirstLongest(h: seq<nat>, n: nat): (pos: nat)
    requires 1 <= n <= |h|
    ensures pos < n
    ensures forall j :: 0 <= j < n ==> Run(h, j) <= Run(h, pos)
    ensures forall j :: 0 <= j < pos ==> Run(h, j) < Run(h, pos)
  {
    if n == 1 then 0
    else
      var best := FirstLongest(h, n - 1);
      if Run(h, n - 1) > Run(h, best) then n - 1 else best
  }

  function GapStart(h: seq<nat>): nat
    requires h != []
  {
    FirstLongest(h, |h|)
  }

  function GapLength(h: seq<nat>): (len: nat)
    requires h != []
    ensures GapStart(h) + len <= |h|
  {
    RunMeaning(h, GapStart(h));
    Run(h, GapStart(h))
  }

  /** The compressed notation: '::' stands for the first longest run of two or more zeros. */
  function Compress(h: seq<nat>): string
    requires h != []
  {
    var pos, len := GapStart(h), GapLength(h);
    if len > 1 then Colons(h[..pos]) + "::" + Colons(h[pos + len..]) else Colons(h)
  }

  /** A run of exactly two hextets at the start or at the end of the address. */
  predicate EdgePair(h: seq<nat>)
    requires h != []
  {
    GapLength(h) == 2 && (GapStart(h) == 0 || GapStart(h) + 2 == |h|)
  }

  // ---------------------------------------------------------------- the list around '::'

  /** The parts that joining with ':' turns into "a::b". */
  function GapParts(a: seq<string>, b: seq<string>): seq<string> {
    (if a == [] then [""] else a) + [""] + (if b == [] then [""] else b)
  }

  lemma JoinGap(a: seq<string>, b: seq<string>)
    ensures Join(GapParts(a, b), ':') == Join(a, ':') + "::" + Join(b, ':')
  {
    var left := if a == [] then [""] else a;
    var right := if b == [] then [""] else b;
    assert Join(left, ':') == Join(a, ':') && Join(right, ':') == Join(b, ':');
    JoinAppend([""], right, ':');
    JoinAppend(left, [""] + right, ':');
    assert GapParts(a, b) == left + ([""] + right);
  }

  lemma MergeTwo(a: seq<string>, c: seq<string>)
    requires "" !in a
    ensures MergeGap(a + ["", ""] + c) == a + [""] + c
  {
    var p := a + ["", ""] + c;
    Address.GapIndexAt(p, |a|);
    assert p[..|a|] + p[|a| + 1..] == a + [""] + c;
  }

  lemma MergeOne(a: seq<string>, c: seq<string>)
    requires "" !in a && (c != [] ==> c[0] != "")
    ensures MergeGap(a + [""] + c) == a + [""] + c
  {
    Address.GapIndexAt(a + [""] + c, |a|);
  }

  /** After both removals one empty part is left between the two sides. */
  lemma MergeTwice(a: seq<string>, b: seq<string>)
    requires "" !in a && "" !in b
    ensures "" in GapParts(a, b)
    ensures MergeGap(MergeGap(GapParts(a, b))) == a + [""] + b
  {
    var p := GapParts(a, b);
    assert p[if a == [] then 0 else |a|] == "";
    if a == [] && b == [] {
      assert p == [] + ["", ""] + [""] && [""] + [""] == [] + ["", ""] + [];
      MergeTwo([], [""]);
      MergeTwo([], []);
    } else if b == [] {
      assert p == a + ["", ""] + [];
      MergeTwo(a, []);
      MergeOne(a, []);
    } else {
      assert b[0] in b;
      MergeOne(a, b);
      if a == [] {
        assert p == [] + ["", ""] + b;
        MergeTwo([], b);
      }
    }
  }

  /** Reading the list puts back exactly the zeros that are missing. */
  lemma FillGapParts(a: seq<string>, b: seq<string>)
    requires "" !in a && "" !in b && |GapParts(a, b)| < 8
    ensures "" in GapParts(a, b)
    ensures FillGap(GapParts(a, b)) == a + ZeroParts(8 - |a| - |b|) + b
  {
    MergeTwice(a, b);
    GapBetween(a, b);
  }

  lemma GapBetween(a: seq<string>, b: seq<string>)
    requires "" !in a
    ensures var p := a + [""] + b;
            "" in p && GapIndex(p) == |a| && p[..|a|] == a && p[|a| + 1..] == b && |p| == |a| + 1 + |b|
  {
    var p := a + [""] + b;
    assert p[|a|] == "";
    Address.GapIndexAt(p, |a|);
  }

  lemma NoTriple(l: string, r: string)
    requires l == "" || Tight(l)
    requires r == "" || Tight(r)
    ensures !HasTripleColon(l + "::" + r)
  {
    var s := l + "::" + r;
    forall i | 0 <= i < |s| - 2 ensures !(s[i] == ':' && s[i + 1] == ':' && s[i + 2] == ':') {
      if i + 2 < |l| {
        assert s[i] == l[i] && s[i + 1] == l[i + 1];
      } else if i > |l| + 1 {
        assert s[i] == r[i - |l| - 2] && s[i + 1] == r[i - |l| - 1];
      } else if i < |l| {
        assert s[|l| - 1] == l[|l| - 1];
      } else {
        assert s[|l| + 2] == r[0];
      }
    }
  }

  /** Two lists of hextets around a double colon. */
  function GapText(a: seq<string>, b: seq<string>): string {
    Join(a, ':') + "::" + Join(b, ':')
  }

  /** What one side of a double colon looks like. */
  ghost predicate Side(a: seq<string>) {
    "" !in a && Free(a, ':') && 'x' !in Join(a, ':') && (Join(a, ':') == "" || Tight(Join(a, ':')))
  }

  /** The text around a gap is split into the parts it was joined from. */
  lemma SplitGap(a: seq<string>, b: seq<string>)
    requires Side(a) && Side(b)
    ensures !Is0x(GapText(a, b)) && ':' in GapText(a, b) && !HasTripleColon(GapText(a, b))
    ensures Split(GapText(a, b), ':') == GapParts(a, b)
  {
    JoinGap(a, b);
    assert Free(GapParts(a, b), ':');
    SplitJoin(GapParts(a, b), ':');
    assert GapText(a, b)[|Join(a, ':')|] == ':';
    No0x(GapText(a, b));
    NoTriple(Join(a, ':'), Join(b, ':'));
  }

  lemma SideFacts(a: seq<string>, g: seq<nat>)
    requires AllSpell(a, g)
    ensures Side(a) && '.' !in Join(a, ':')
  {
    SpelledNonempty(a, g);
    SpelledFree(a, g, ':');
    SpelledFree(a, g, 'x');
    SpelledFree(a, g, '.');
    JoinFree(a, ':', 'x');
    JoinFree(a, ':', '.');
    if a != [] {
      JoinTight(a);
    }
  }

  function ZeroGroups(n: nat): (r: seq<nat>)
    ensures |r| == n && forall i :: 0 <= i < n ==> r[i] == 0
  {
    seq(n, _ => 0)
  }

  lemma ZerosBetween(a: seq<string>, g: seq<nat>, b: seq<string>, k: seq<nat>, n: nat)
    requires AllSpell(a, g) && AllSpell(b, k) && Short(a) && Short(b)
    ensures AllSpell(a + ZeroParts(n) + b, g + ZeroGroups(n) + k)
    ensures Short(a + ZeroParts(n) + b)
  {
    var parts, groups := a + ZeroParts(n) + b, g + ZeroGroups(n) + k;
    assert Numeral(0, Hex) == "0";
    NumeralValue(0, Hex);
    forall i | 0 <= i < |groups| ensures Spells(parts[i], groups[i]) {
      if i < |a| {
        assert Spells(a[i], g[i]);
      } else if i >= |a| + n {
        assert Spells(b[i - |a| - n], k[i - |a| - n]);
      }
    }
  }

  /** How many empty parts there are besides the gap itself. */
  function Ends(a: seq<string>, b: seq<string>): nat {
    (if a == [] then 1 else 0) + (if b == [] then 1 else 0)
  }

  /** The groups around the missing ones, which are zero. */
  function Filled(g: seq<nat>, k: seq<nat>): seq<nat>
    requires |g| + |k| <= 8
  {
    g + ZeroGroups(8 - |g| - |k|) + k
  }

  /** What a text with a double colon between two lists of hextets denotes: the missing
      groups are zero. It is refused exactly when, counting the empty parts, it has eight
      parts or more: then at most one group is missing, or two at an end. */
  lemma ParseGap(a: seq<string>, g: seq<nat>, b: seq<string>, k: seq<nat>)
    requires AllSpell(a, g) && AllSpell(b, k) && Short(a) && Short(b)
    ensures var missing := 8 - |a| - |b|;
            Parse(GapText(a, b)) ==
              if missing > 1 + Ends(a, b) then Ok(Parsed(FromGroups(Hextet, Filled(g, k)), 6))
              else Raised(if missing == 1 + Ends(a, b) then NeedlessGap else TooManyHextets)
  {
    GapReads(a, g, b, k);
    GapPartsRead(GapText(a, b), a, g, b, k);
  }

  lemma GapReads(a: seq<string>, g: seq<nat>, b: seq<string>, k: seq<nat>)
    requires AllSpell(a, g) && AllSpell(b, k)
    ensures Parse(GapText(a, b)) == ReadParts(GapParts(a, b))
  {
    SideFacts(a, g);
    SideFacts(b, k);
    SplitGap(a, b);
    NoDot(a, b);
    PlainColons(GapText(a, b));
  }

  lemma NoDot(a: seq<string>, b: seq<string>)
    requires '.' !in Join(a, ':') && '.' !in Join(b, ':')
    ensures '.' !in GapText(a, b)
  {
  }

  lemma PlainColons(s: string)
    requires !Is0x(s) && ':' in s && '.' !in s && !HasTripleColon(s)
    ensures Parse(s) == ReadParts(Split(s, ':'))
  {
  }

  /** The same with a dotted quad at the end, which counts as two hextets. */
  lemma ParseMixedGap(a: seq<string>, g: seq<nat>, b: seq<string>, k: seq<nat>, v4: nat)
    requires AllSpell(a, g) && AllSpell(b, k) && Short(a) && Short(b) && v4 <= MAX4
    ensures var missing, ends := 6 - |a| - |b|, if a == [] then 1 else 0;
            Parse(GapText(a, b + [Dotted(v4)])) ==
              if missing > 1 + ends then Ok(Parsed(FromGroups(Hextet, Filled(g, k + GroupsOf(Hextet, v4, 2))), 6))
              else Raised(if missing == 1 + ends then NeedlessGap else TooManyHextets)
  {
    SideFacts(a, g);
    MixedSide(b, k, v4);
    SplitGap(a, b + [Dotted(v4)]);
    MixedGapReads(a, b, v4);
    TailSpells(b, k, v4);
    GapPartsRead(GapText(a, b + [Dotted(v4)]), a, g, b + TailTexts(v4), k + GroupsOf(Hextet, v4, 2));
  }

  lemma MixedGapReads(a: seq<string>, b: seq<string>, v4: nat)
    requires v4 <= MAX4 && Side(a) && Side(b + [Dotted(v4)]) && '.' in Join(b + [Dotted(v4)], ':')
    ensures Parse(GapText(a, b + [Dotted(v4)])) == ReadParts(GapParts(a, b + TailTexts(v4)))
  {
    SplitGap(a, b + [Dotted(v4)]);
    GapDot(a, b + [Dotted(v4)]);
    GapTail(a, b, v4);
    DottedColons(GapText(a, b + [Dotted(v4)]), GapParts(a, b + [Dotted(v4)]), GapParts(a, b + TailTexts(v4)));
  }

  lemma GapTail(a: seq<string>, b: seq<string>, v4: nat)
    requires v4 <= MAX4
    ensures ExpandTail(GapParts(a, b + [Dotted(v4)])) == Ok(GapParts(a, b + TailTexts(v4)))
  {
    var front := (if a == [] then [""] else a) + [""] + b;
    DottedTail(front, v4);
    assert GapParts(a, b + [Dotted(v4)]) == front + [Dotted(v4)];
    assert GapParts(a, b + TailTexts(v4)) == front + TailTexts(v4);
  }

  lemma GapDot(a: seq<string>, b: seq<string>)
    requires '.' in Join(b, ':')
    ensures '.' in GapText(a, b)
  {
  }

  lemma GapPartsRead(s: string, a: seq<string>, g: seq<nat>, b: seq<string>, k: seq<nat>)
    requires Parse(s) == ReadParts(GapParts(a, b))
    requires AllSpell(a, g) && AllSpell(b, k) && Short(a) && Short(b)
    ensures var missing := 8 - |a| - |b|;
            Parse(s) ==
              if missing > 1 + Ends(a, b) then Ok(Parsed(FromGroups(Hextet, Filled(g, k)), 6))
              else Raised(if missing == 1 + Ends(a, b) then NeedlessGap else TooManyHextets)
  {
    if |GapParts(a, b)| < 8 {
      FewerParts(s, a, g, b, k);
    } else {
      TooManyParts(a, b);
    }
  }

  lemma FewerParts(s: string, a: seq<string>, g: seq<nat>, b: seq<string>, k: seq<nat>)
    requires Parse(s) == ReadParts(GapParts(a, b)) && |GapParts(a, b)| < 8
    requires AllSpell(a, g) && AllSpell(b, k) && Short(a) && Short(b)
    ensures Parse(s) == Ok(Parsed(FromGroups(Hextet, Filled(g, k)), 6))
  {
    var full := a + ZeroParts(8 - |a| - |b|) + b;
    FilledParts(a, g, b, k);
    FilledSpells(a, g, b, k, full);
    FilledReads(s, GapParts(a, b), full, Filled(g, k));
  }

  lemma FilledSpells(a: seq<string>, g: seq<nat>, b: seq<string>, k: seq<nat>, full: seq<string>)
    requires AllSpell(a, g) && AllSpell(b, k) && Short(a) && Short(b) && |a| + |b| <= 8
    requires full == a + ZeroParts(8 - |a| - |b|) + b
    ensures AllSpell(full, Filled(g, k)) && Short(full) && |Filled(g, k)| == 8
  {
    ZerosBetween(a, g, b, k, 8 - |a| - |b|);
  }

  /** Eight parts with an empty one among them, or more than eight. */
  lemma TooManyParts(a: seq<string>, b: seq<string>)
    requires |GapParts(a, b)| >= 8
    ensures ReadParts(GapParts(a, b)) == Raised(if |GapParts(a, b)| == 8 then NeedlessGap else TooManyHextets)
  {
    assert GapParts(a, b)[if a == [] then 1 else |a|] == "";
  }

  lemma FilledParts(a: seq<string>, g: seq<nat>, b: seq<string>, k: seq<nat>)
    requires AllSpell(a, g) && AllSpell(b, k) && |GapParts(a, b)| < 8
    ensures "" in GapParts(a, b)
    ensures FillGap(GapParts(a, b)) == a + ZeroParts(8 - |a| - |b|) + b
  {
    SpelledNonempty(a, g);
    SpelledNonempty(b, k);
    FillGapParts(a, b);
  }

  lemma FilledReads(s: string, parts: seq<string>, full: seq<string>, all: seq<nat>)
    requires Parse(s) == ReadParts(parts) && |parts| < 8 && "" in parts && FillGap(parts) == full
    requires AllSpell(full, all) && Short(full) && |all| == 8
    ensures Parse(s) == Ok(Parsed(FromGroups(Hextet, all), 6))
  {
    SpelledNonempty(full, all);
    ReadSpelled(full, all);
    assert ReadParts(parts) == ReadHextets(full) == ReadParts(full);
  }

  // ---------------------------------------------------------------- read back

  ghost predicate IsAddress(h: seq<nat>) {
    |h| == 8 && InRange(Hextet, h)
  }

  lemma GapSides(h: seq<nat>)
    requires IsAddress(h)
    ensures var pos, len := GapStart(h), GapLength(h);
            h == h[..pos] + ZeroGroups(len) + h[pos + len..]
  {
    RunMeaning(h, GapStart(h));
  }

  /** The compressed text denotes the address it was printed from exactly when the run
      cut out is not a pair touching the start or the end; such a text is refused. */
  lemma ParseCompressed(h: seq<nat>)
    requires IsAddress(h)
    ensures !EdgePair(h) ==> Parse(Compress(h)) == Ok(Parsed(FromGroups(Hextet, h), 6))
    ensures EdgePair(h) ==> Parse(Compress(h)) == Raised(NeedlessGap)
  {
    var pos, len := GapStart(h), GapLength(h);
    if len <= 1 {
      TextsSpell(h);
      ParseColonJoin(Texts(h, Hex), h);
    } else {
      CompressedReads(h, h[..pos], h[pos + len..]);
    }
  }

  lemma CompressedReads(h: seq<nat>, g: seq<nat>, k: seq<nat>)
    requires IsAddress(h) && GapLength(h) > 1
    requires g == h[..GapStart(h)] && k == h[GapStart(h) + GapLength(h)..]
    ensures Parse(Compress(h)) == if EdgePair(h) then Raised(NeedlessGap) else Ok(Parsed(FromGroups(Hextet, h), 6))
  {
    TextsSpell(g);
    TextsSpell(k);
    ParseGap(Texts(g, Hex), g, Texts(k, Hex), k);
    CutGroups(h);
  }

  lemma CutGroups(h: seq<nat>)
    requires IsAddress(h) && GapLength(h) > 1
    ensures var g, k := h[..GapStart(h)], h[GapStart(h) + GapLength(h)..];
            && Filled(g, k) == h && Compress(h) == GapText(Texts(g, Hex), Texts(k, Hex))
            && (EdgePair(h) <==> 8 - |g| - |k| == 1 + Ends(Texts(g, Hex), Texts(k, Hex)))
            && (!EdgePair(h) <==> 8 - |g| - |k| > 1 + Ends(Texts(g, Hex), Texts(k, Hex)))
  {
    GapSides(h);
    CutEnds(h[..GapStart(h)], h[GapStart(h) + GapLength(h)..]);
  }

  lemma CutEnds(g: seq<nat>, k: seq<nat>)
    ensures Ends(Texts(g, Hex), Texts(k, Hex)) == (if |g| == 0 then 1 else 0) + if |k| == 0 then 1 else 0
  {
  }

  // ---------------------------------------------------------------- printing

  lemma FullTextReads(n: nat)
    requires n < 65536
    ensures ReadInt(FixedDigits(n, Hex, 4), Hex, false) == Some(n)
  {
    Power4();
    FixedDigitsValue(n, Hex, 4);
    ReadDigits(FixedDigits(n, Hex, 4), Hex, false);
  }

  /** `[int(x, 16) for x in self.strFullsize(0).split(':')]` */
  method HextetsFromFull(ip: nat) returns (h: seq<nat>)
    requires ip <= MAX6
    ensures h == GroupsOf(Hextet, ip, 8)
  {
    var full := Address.PrintHextets(ip);
    var parts := Split(full, ':');
    FullTextsFree(GroupsOf(Hextet, ip, 8), ':');
    SplitJoin(FullTexts(GroupsOf(Hextet, ip, 8)), ':');
    h := ReadFullTexts(parts, GroupsOf(Hextet, ip, 8));
  }

  method ReadFullTexts(parts: seq<string>, ghost g: seq<nat>) returns (h: seq<nat>)
    requires InRange(Hextet, g) && parts == FullTexts(g)
    ensures h == g
  {
    h := [];
    for i := 0 to |parts|
      invariant h == g[..i]
    {
      assert g[i] < 65536 && g[..i + 1] == g[..i] + [g[i]];
      FullTextReads(g[i]);
      assert ReadInt(parts[i], Hex, false) == Some(g[i]);
      var n := ReadInt(parts[i], Hex, false);
      h := h + [n.value];
    }
  }

  /** The version 6 branch of `strNormal`. */
  method PrintNormal(ip: nat) returns (s: string)
    requires ip <= MAX6
    ensures s == Colons(GroupsOf(Hextet, ip, 8))
  {
    var h := HextetsFromFull(ip);
    var parts: seq<string> := [];
    for i := 0 to |h|
      invariant parts == Texts(h[..i], Hex)
    {
      parts := parts + [Numeral(h[i], Hex)];
    }
    assert h[..|h|] == h;
    s := Join(parts, ':');
  }

  function MaxOf(l: seq<nat>): (m: nat)
    requires l != []
    ensures m in l && forall i :: 0 <= i < |l| ==> l[i] <= m
  {
    if |l| == 1 then l[0]
    else
      var m := MaxOf(l[1..]);
      assert forall i :: 1 <= i < |l| ==> l[i] == l[1..][i - 1];
      if l[0] >= m then l[0] else m
  }

  function IndexOf(l: seq<nat>, x: nat): (i: nat)
    requires x in l
    ensures i < |l| && l[i] == x && x !in l[..i]
  {
    if l[0] == x then 0 else 1 + IndexOf(l[1..], x)
  }

  /** The first maximum of the run lengths is the start of the first longest run. */
  lemma FirstMaximum(h: seq<nat>, runs: seq<nat>)
    requires h != [] && |runs| == |h|
    requires forall i :: 0 <= i < |h| ==> runs[i] == Run(h, i)
    ensures MaxOf(runs) == GapLength(h) && IndexOf(runs, MaxOf(runs)) == GapStart(h)
  {
    var pos, i := GapStart(h), IndexOf(runs, MaxOf(runs));
    assert runs[pos] == Run(h, pos) && runs[i] == Run(h, i);
    assert runs[i] == runs[pos];
  }

  lemma ZeroText(n: nat)
    ensures Numeral(n, Hex) == "0" <==> n == 0
  {
    NumeralValue(n, Hex);
    NumeralValue(0, Hex);
  }

  /** The version 6 branch of `strCompressed`, without the prefix. */
  method PrintCompressed(ip: nat) returns (s: string)
    requires ip <= MAX6
    ensures s == Compress(GroupsOf(Hextet, ip, 8))
  {
    var h := HextetsFromFull(ip);
    var runs: seq<nat> := [];
    for i := 0 to |h|
      invariant |runs| == i && forall j :: 0 <= j < i ==> runs[j] == Run(h, j)
    {
      runs := runs + [CountFollowingZeros(h[i..])];
    }
    var pos := IndexOf(runs, MaxOf(runs));
    FirstMaximum(h, runs);
    s := PrintNormal(ip);
    if MaxOf(runs) > 1 {
      s := CutGap(s, h, pos);
    }
  }

  /** The longest run of zeros of a normal text replaced by '::'. */
  method CutGap(normal: string, ghost h: seq<nat>, pos: nat) returns (s: string)
    requires InRange(Hextet, h) && h != [] && normal == Colons(h) && pos == GapStart(h)
    ensures s == Colons(h[..pos]) + "::" + Colons(h[pos + GapLength(h)..])
  {
    TextsSpell(h);
    SideFacts(Texts(h, Hex), h);
    SplitJoin(Texts(h, Hex), ':');
    var hextets := Split(normal, ':');
    ZeroTexts(h, pos);
    hextets := DeleteZeros(hextets, pos, GapLength(h));
    hextets := InsertGap(hextets, pos, Texts(h[..pos], Hex), Texts(h[pos + GapLength(h)..], Hex));
    s := Join(hextets, ':');
    JoinGap(Texts(h[..pos], Hex), Texts(h[pos + GapLength(h)..], Hex));
  }

  lemma ZeroTexts(h: seq<nat>, pos: nat)
    requires pos <= |h|
    ensures var t, n := Texts(h, Hex), Run(h, pos);
            && pos + n <= |h|
            && (forall i :: pos <= i < pos + n ==> t[i] == "0")
            && (pos + n < |h| ==> t[pos + n] != "0")
            && t[..pos] == Texts(h[..pos], Hex) && t[pos + n..] == Texts(h[pos + n..], Hex)
  {
    RunMeaning(h, pos);
    forall i | 0 <= i < |h| ensures Texts(h, Hex)[i] == "0" <==> h[i] == 0 {
      ZeroText(h[i]);
    }
  }

  /** `del hextets[pos]` while a zero stands there: exactly the run goes. */
  method DeleteZeros(texts: seq<string>, pos: nat, ghost n: nat) returns (hextets: seq<string>)
    requires pos + n <= |texts| && forall i :: pos <= i < pos + n ==> texts[i] == "0"
    requires pos + n < |texts| ==> texts[pos + n] != "0"
    ensures hextets == texts[..pos] + texts[pos + n..]
  {
    hextets := texts;
    ghost var k := 0;
    while pos < |hextets| && hextets[pos] == "0"
      invariant k <= n && hextets == texts[..pos] + texts[pos + k..]
      decreases |hextets|
    {
      RunGoesOn(texts, pos, n, k);
      DeleteOne(texts, pos, k);
      hextets := hextets[..pos] + hextets[pos + 1..];
      k := k + 1;
    }
    RunGoesOn(texts, pos, n, k);
  }

  /** Where the deletion stands in the list, there is a zero exactly within the run. */
  lemma RunGoesOn(texts: seq<string>, pos: nat, n: nat, k: nat)
    requires pos + n <= |texts| && (forall i :: pos <= i < pos + n ==> texts[i] == "0") && k <= n
    requires pos + n < |texts| ==> texts[pos + n] != "0"
    ensures var h := texts[..pos] + texts[pos + k..];
            k < n <==> pos < |h| && h[pos] == "0"
  {
    var h := texts[..pos] + texts[pos + k..];
    assert pos < |h| ==> h[pos] == texts[pos + k];
  }

  lemma DeleteOne(texts: seq<string>, pos: nat, k: nat)
    requires pos + k < |texts|
    ensures var h := texts[..pos] + texts[pos + k..];
            h[..pos] + h[pos + 1..] == texts[..pos] + texts[pos + k + 1..]
  {
    var h := texts[..pos] + texts[pos + k..];
    assert h[..pos] == texts[..pos] && h[pos + 1..] == texts[pos + k + 1..];
  }

  /** The three insertions of the empty string. */
  method InsertGap(parts: seq<string>, pos: nat, ghost a: seq<string>, ghost b: seq<string>) returns (hextets: seq<string>)
    requires parts == a + b && pos == |a|
    ensures hextets == GapParts(a, b)
  {
    hextets := parts[..pos] + [""] + parts[pos..];
    if pos + 1 >= |hextets| {
      hextets := hextets + [""];
    }
    if pos == 0 {
      hextets := [""] + hextets;
    }
  }
}
