/** What parseAddr6 reads is exactly what is written: every spelling of an address, and nothing else. */
module Written6 {
  import opened Words
  import opened Addr
  import opened Parse4
  import opened Parse6
  import opened Text

  // ---- groups ----

  lemma HexCharIs(c: byte, n: nat)
    ensures IsHexChar(c, n) <==> IsHex(c) && HexVal(c) == n
  {
  }

  /** The value of digit `k` of `s` padded to four with zeros in front. */
  function DigitAt(s: seq<byte>, k: nat): (n: nat)
    requires H16(s) && k < 4
    ensures n < 16
  {
    if k < 4 - |s| then 0 else HexVal(s[k - (4 - |s|)])
  }

  lemma HexOne(s: seq<byte>)
    requires |s| == 1 && AllHex(s)
    ensures Hex(s) == HexVal(s[0])
  {
    assert s[..0] == [];
  }

  lemma HexTwo(s: seq<byte>)
    requires |s| == 2 && AllHex(s)
    ensures Hex(s) == HexVal(s[0]) * 0x10 + HexVal(s[1])
  {
    HexOne(s[..1]);
  }

  lemma HexThree(s: seq<byte>)
    requires |s| == 3 && AllHex(s)
    ensures Hex(s) == HexVal(s[0]) * 0x100 + HexVal(s[1]) * 0x10 + HexVal(s[2])
  {
    assert s[..2][0] == s[0] && s[..2][1] == s[1];
    HexTwo(s[..2]);
  }

  lemma HexFour(s: seq<byte>)
    requires |s| == 4 && AllHex(s)
    ensures Hex(s) == HexVal(s[0]) * 0x1000 + HexVal(s[1]) * 0x100 + HexVal(s[2]) * 0x10 + HexVal(s[3])
  {
    assert s[..3][0] == s[0] && s[..3][1] == s[1] && s[..3][2] == s[2];
    HexThree(s[..3]);
  }

  lemma HexIsDigits(s: seq<byte>)
    requires H16(s)
    ensures H16Value(s) == DigitAt(s, 0) * 0x1000 + DigitAt(s, 1) * 0x100 + DigitAt(s, 2) * 0x10 + DigitAt(s, 3)
  {
    if |s| == 1 {
      HexOne(s);
    } else if |s| == 2 {
      HexTwo(s);
    } else if |s| == 3 {
      HexThree(s);
    } else {
      HexFour(s);
    }
  }

  /** Four digits below sixteen are the nibbles of their number. */
  lemma NibblesAre(v: u16, a: nat, b: nat, c: nat, d: nat)
    requires a < 16 && b < 16 && c < 16 && d < 16
    ensures v == a * 0x1000 + b * 0x100 + c * 0x10 + d <==>
            Nibble(v, 0) == a && Nibble(v, 1) == b && Nibble(v, 2) == c && Nibble(v, 3) == d
  {
    var x: nat := v;
    assert Nibble(v, 0) == x / 0x1000 % 16 && Nibble(v, 1) == x / 0x100 % 16;
    assert Nibble(v, 2) == x / 0x10 % 16 && Nibble(v, 3) == x % 16;
    DigitsOf(x, a, b, c, d);
  }

  lemma LastDigit(x: nat, q: nat, r: nat)
    requires r < 16
    ensures x == q * 16 + r <==> x / 16 == q && x % 16 == r
  {
  }

  lemma DigitsOf(x: nat, a: nat, b: nat, c: nat, d: nat)
    requires a < 16 && b < 16 && c < 16 && d < 16 && x < 0x1_0000
    ensures x == a * 0x1000 + b * 0x100 + c * 0x10 + d <==>
            x / 0x1000 % 16 == a && x / 0x100 % 16 == b && x / 0x10 % 16 == c && x % 16 == d
  {
    var y := x / 16;
    var z := y / 16;
    ByDigits(x, y, z);
    LastDigit(x, (a * 16 + b) * 16 + c, d);
    LastDigit(y, a * 16 + b, c);
    LastDigit(z, a, b);
  }

  lemma ByDigits(x: nat, y: nat, z: nat)
    requires x < 0x1_0000 && y == x / 16 && z == y / 16
    ensures x / 0x100 == z && x / 0x1000 == z / 16 < 16
  {
  }

  lemma SpellsAreDigits(s: seq<byte>, v: u16)
    requires H16(s)
    ensures Spells(s, v) <==> forall k :: 0 <= k < 4 ==> Nibble(v, k) == DigitAt(s, k)
  {
    forall k | 4 - |s| <= k < 4
      ensures IsHexChar(s[k - (4 - |s|)], Nibble(v, k)) <==> Nibble(v, k) == DigitAt(s, k)
    {
      HexCharIs(s[k - (4 - |s|)], Nibble(v, k));
    }
  }

  lemma SpellingIsHex(s: seq<byte>, v: u16)
    requires Spells(s, v)
    ensures H16(s)
  {
    forall i | 0 <= i < |s| ensures IsHex(s[i]) {
      var k := i + (4 - |s|);
      assert IsHexChar(s[k - (4 - |s|)], Nibble(v, k));
      HexCharIs(s[i], Nibble(v, k));
    }
  }

  /** The texts the parser reads as a group are exactly the spellings of its value. */
  lemma SpellsIsH16(s: seq<byte>, v: u16)
    ensures Spells(s, v) <==> H16(s) && H16Value(s) == v
  {
    if Spells(s, v) {
      SpellingIsHex(s, v);
    }
    if H16(s) {
      SpellsAreDigits(s, v);
      HexIsDigits(s);
      NibblesAre(v, DigitAt(s, 0), DigitAt(s, 1), DigitAt(s, 2), DigitAt(s, 3));
    }
  }

  // ---- lists of groups ----

  lemma ColonSplits(t: seq<byte>, s: seq<byte>, u: seq<byte>)
    requires Colon(t, s, u) && H16(s)
    ensures FirstColon(t) == |s| < |t| && t[..|s|] == s && t[|s| + 1..] == u
  {
    forall i | 0 <= i < |s| ensures t[i] != COLON {
      assert IsHex(s[i]);
    }
    FirstColonIs(t, |s|);
  }

  lemma OneGroup(t: seq<byte>, v: u16, quad: bool)
    requires Spells(t, v)
    ensures ListOf(t, quad) == Some([v])
  {
    SpellsIsH16(t, v);
    forall i | 0 <= i < |t| ensures t[i] != COLON {
      assert IsHex(t[i]);
    }
    FirstColonIs(t, |t|);
  }

  lemma Halves(a: u16, b: u16)
    ensures (a as int * 0x1_0000 + b) / 0x1_0000 == a && (a as int * 0x1_0000 + b) % 0x1_0000 == b
  {
  }

  lemma QuadGroups(t: seq<byte>, ip: u32)
    requires t == Dotted(ip)
    ensures ListOf(t, true) == Some([ip / 0x1_0000, ip % 0x1_0000])
  {
    QuadIsDotted(t, ip);
    QuadHasNoColon(t);
  }

  lemma PairReads(t: seq<byte>, gs: seq<u16>)
    requires Paired(t, gs)
    ensures ListOf(t, true) == Some(gs)
  {
    Halves(gs[0], gs[1]);
    QuadGroups(t, gs[0] as int * 0x1_0000 + gs[1]);
    assert gs == [gs[0], gs[1]];
  }

  lemma ColonReads(t: seq<byte>, s: seq<byte>, u: seq<byte>, v: u16, rest: seq<u16>, quad: bool)
    requires Colon(t, s, u) && Spells(s, v) && ListOf(u, quad) == Some(rest)
    ensures ListOf(t, quad) == Some([v] + rest)
  {
    SpellsIsH16(s, v);
    ColonSplits(t, s, u);
  }

  ghost predicate Begins(t: seq<byte>, gs: seq<u16>, quad: bool) {
    |gs| >= 2 && exists s, u :: Colon(t, s, u) && Spells(s, gs[0]) && ListOf(u, quad) == Some(gs[1..])
  }

  lemma BeginsReads(t: seq<byte>, gs: seq<u16>, quad: bool)
    requires Begins(t, gs, quad)
    ensures ListOf(t, quad) == Some(gs)
  {
    var s, u :| Colon(t, s, u) && Spells(s, gs[0]) && ListOf(u, quad) == Some(gs[1..]);
    ColonReads(t, s, u, gs[0], gs[1..], quad);
    assert gs == [gs[0]] + gs[1..];
  }

  lemma OneReads(t: seq<byte>, gs: seq<u16>, quad: bool)
    requires |gs| == 1 && Spells(t, gs[0])
    ensures ListOf(t, quad) == Some(gs)
  {
    OneGroup(t, gs[0], quad);
    assert gs == [gs[0]];
  }

  lemma {:induction false} ListedReads(t: seq<byte>, gs: seq<u16>, quad: bool)
    requires Listed(t, gs, quad)
    ensures ListOf(t, quad) == Some(gs)
    decreases |gs|
  {
    if |gs| == 1 {
      OneReads(t, gs, quad);
    } else if quad && Paired(t, gs) {
      PairReads(t, gs);
    } else {
      var s, u :| Colon(t, s, u) && Spells(s, gs[0]) && Listed(u, gs[1..], quad);
      ListedReads(u, gs[1..], quad);
      assert Begins(t, gs, quad);
      BeginsReads(t, gs, quad);
    }
  }

  lemma LastIsWritten(t: seq<byte>, gs: seq<u16>, quad: bool)
    requires ListOf(t, quad) == Some(gs) && FirstColon(t) == |t|
    ensures Listed(t, gs, quad)
  {
    if H16(t) {
      SpellsIsH16(t, gs[0]);
    } else {
      QuadIsDotted(t, Quad(t).value);
    }
  }

  lemma ColonIsWritten(t: seq<byte>, gs: seq<u16>, quad: bool)
    requires ListOf(t, quad) == Some(gs) && FirstColon(t) < |t|
    requires |gs| > 1 && Listed(t[FirstColon(t) + 1..], gs[1..], quad)
    ensures Listed(t, gs, quad)
  {
    var c := FirstColon(t);
    SpellsIsH16(t[..c], gs[0]);
    assert Colon(t, t[..c], t[c + 1..]);
  }

  lemma {:induction false} ListIsWritten(t: seq<byte>, gs: seq<u16>, quad: bool)
    requires ListOf(t, quad) == Some(gs)
    ensures Listed(t, gs, quad)
    decreases |t|
  {
    var c := FirstColon(t);
    if c < |t| {
      ListIsWritten(t[c + 1..], gs[1..], quad);
      ColonIsWritten(t, gs, quad);
    } else {
      LastIsWritten(t, gs, quad);
    }
  }

  lemma ListIsListed(t: seq<byte>, gs: seq<u16>, quad: bool)
    ensures ListOf(t, quad) == Some(gs) <==> Listed(t, gs, quad)
  {
    if ListOf(t, quad) == Some(gs) {
      ListIsWritten(t, gs, quad);
    }
    if Listed(t, gs, quad) {
      ListedReads(t, gs, quad);
    }
  }

  // ---- the whole address ----

  lemma SideIsLeft(t: seq<byte>, p: nat, gs: seq<u16>)
    requires GapAt(t, p)
    ensures LeftOf(t, p) == Some(gs) <==> Side(t[..p], gs, false)
  {
    ListIsListed(t[..p], gs, false);
  }

  lemma SideIsRight(t: seq<byte>, p: nat, gs: seq<u16>)
    requires GapAt(t, p)
    ensures RightOf(t, p) == Some(gs) <==> Side(t[p + 2..], gs, true)
  {
    ListIsListed(t[p + 2..], gs, true);
  }

  /** Both sides of a gap, and the zero groups between. */
  lemma AroundIs(t: seq<byte>, p: nat, l: seq<u16>, r: seq<u16>)
    requires GapAt(t, p) && LeftOf(t, p) == Some(l) && RightOf(t, p) == Some(r) && |l| + |r| <= 7
    ensures Around(t, p) == Some(l + Zeros(8 - |l| - |r|) + r)
  {
  }

  lemma ZerosBetween(gs: seq<u16>, i: nat, j: nat)
    requires |gs| == 8 && i < j <= 8 && forall k :: i <= k < j ==> gs[k] == 0
    ensures gs == gs[..i] + Zeros(8 - |gs[..i]| - |gs[j..]|) + gs[j..]
  {
  }

  lemma GapOf(t: seq<byte>, l: seq<byte>, r: seq<byte>)
    requires t == l + [':' as int, ':' as int] + r
    ensures GapAt(t, |l|) && t[..|l|] == l && t[|l| + 2..] == r
  {
  }

  lemma ElidedReads(t: seq<byte>, gs: seq<u16>, i: nat, j: nat, l: seq<byte>, r: seq<byte>)
    requires |gs| == 8 && Elided(t, gs, i, j, l, r)
    ensures GapAt(t, |l|) && Around(t, |l|) == Some(gs)
  {
    GapOf(t, l, r);
    SideIsLeft(t, |l|, gs[..i]);
    SideIsRight(t, |l|, gs[j..]);
    AroundIs(t, |l|, gs[..i], gs[j..]);
    ZerosBetween(gs, i, j);
  }

  lemma GapSplits(t: seq<byte>, p: nat)
    requires GapAt(t, p)
    ensures t == t[..p] + [':' as int, ':' as int] + t[p + 2..]
  {
  }

  lemma BetweenIsZero(gs: seq<u16>, l: seq<u16>, r: seq<u16>)
    requires |l| + |r| <= 7 && gs == l + Zeros(8 - |l| - |r|) + r
    ensures |gs| == 8 && gs[..|l|] == l && gs[8 - |r|..] == r && forall k :: |l| <= k < 8 - |r| ==> gs[k] == 0
  {
  }

  lemma AroundIsElided(t: seq<byte>, gs: seq<u16>, p: nat)
    requires GapAt(t, p) && Around(t, p) == Some(gs)
    ensures |gs| == 8 && exists i: nat, j: nat, l, r :: Elided(t, gs, i, j, l, r)
  {
    var l, r := LeftOf(t, p).value, RightOf(t, p).value;
    BetweenIsZero(gs, l, r);
    SidesAre(t, p, l, r);
    GapSplits(t, p);
    assert Elided(t, gs, |l|, 8 - |r|, t[..p], t[p + 2..]);
  }

  lemma SidesAre(t: seq<byte>, p: nat, l: seq<u16>, r: seq<u16>)
    requires GapAt(t, p) && LeftOf(t, p) == Some(l) && RightOf(t, p) == Some(r)
    ensures Side(t[..p], l, false) && Side(t[p + 2..], r, true)
  {
    SideIsLeft(t, p, l);
    SideIsRight(t, p, r);
  }

  /** The parser reads a text as eight groups exactly when the text writes them. */
  lemma ParseIsWritten(t: seq<byte>, gs: seq<u16>)
    ensures Parse(t) == Some(gs) <==> Writes(t, gs)
  {
    ParseIsDenotes(t, gs);
    ListIsListed(t, gs, true);
    if exists p: nat :: GapAt(t, p) && Around(t, p) == Some(gs) {
      var p: nat :| GapAt(t, p) && Around(t, p) == Some(gs);
      AroundIsElided(t, gs, p);
    }
    if |gs| == 8 && exists i: nat, j: nat, l, r :: Elided(t, gs, i, j, l, r) {
      var i: nat, j: nat, l, r :| Elided(t, gs, i, j, l, r);
      ElidedReads(t, gs, i, j, l, r);
    }
  }

  lemma GroupWord(b: seq<byte>, a: u16, c: u16, d: u16, e: u16)
    requires |b| == 8
    requires a == b[0] as int * 0x100 + b[1] && c == b[2] as int * 0x100 + b[3]
    requires d == b[4] as int * 0x100 + b[5] && e == b[6] as int * 0x100 + b[7]
    ensures BigEndian(b) == Word4(a, c, d, e)
  {
    BigEndianEight(b);
  }

  /** The address of eight groups is that of their bytes. */
  lemma GroupsAreBytes(gs: seq<u16>)
    requires |gs| == 8
    ensures GroupsAddr(gs) == Words16(GroupBytes(gs))
  {
    var b := GroupBytes(gs);
    GroupWord(b[..8], gs[0], gs[1], gs[2], gs[3]);
    GroupWord(b[8..], gs[4], gs[5], gs[6], gs[7]);
  }

  /** Parsing a text that writes eight groups gives the address of their bytes, and other texts do not parse. */
  lemma ParseGivesBytes(t: seq<byte>)
    ensures forall gs :: Writes(t, gs) ==> Parse(t) == Some(gs) && GroupsAddr(gs) == Words16(GroupBytes(gs))
    ensures Parse(t).Some? ==> Writes(t, Parse(t).value)
  {
    forall gs | Writes(t, gs) ensures Parse(t) == Some(gs) && GroupsAddr(gs) == Words16(GroupBytes(gs)) {
      ParseIsWritten(t, gs);
      GroupsAreBytes(gs);
    }
    if Parse(t).Some? {
      ParseIsWritten(t, Parse(t).value);
    }
  }
}
