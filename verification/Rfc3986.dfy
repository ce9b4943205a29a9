/** IPv6address as section 3.2.2 of RFC 3986 writes it, and the proof that the parser's language is that one. */
module Rfc3986 {
  import opened Words
  import opened Parse4
  import opened Parse6

  /** The text is h16 ":" up to and including position `c`. */
  predicate Cut(t: seq<byte>, c: nat) {
    c < |t| && t[c] == COLON && H16(t[..c])
  }

  /** ls32 = ( h16 ":" h16 ) / IPv4address */
  ghost predicate Ls32(t: seq<byte>) {
    || (exists c: nat :: Cut(t, c) && H16(t[c + 1..]))
    || (exists ip :: Ipv4Address(t, ip))
  }

  /** k( h16 ":" ) ls32 */
  ghost predicate ThenLs32(t: seq<byte>, k: nat) {
    if k == 0 then Ls32(t)
    else exists c: nat :: Cut(t, c) && ThenLs32(t[c + 1..], k - 1)
  }

  /** k( h16 ":" ) h16 */
  ghost predicate ThenH16(t: seq<byte>, k: nat) {
    if k == 0 then H16(t)
    else exists c: nat :: Cut(t, c) && ThenH16(t[c + 1..], k - 1)
  }

  /** [ *m( h16 ":" ) h16 ] */
  ghost predicate UpTo(t: seq<byte>, m: nat) {
    t == [] || exists k: nat :: k <= m && ThenH16(t, k)
  }

  /** What may stand left and right of the "::". */
  ghost predicate Sides(l: seq<byte>, r: seq<byte>) {
    || (l == [] && ThenLs32(r, 5))
    || (UpTo(l, 0) && ThenLs32(r, 4))
    || (UpTo(l, 1) && ThenLs32(r, 3))
    || (UpTo(l, 2) && ThenLs32(r, 2))
    || (UpTo(l, 3) && ThenLs32(r, 1))
    || (UpTo(l, 4) && ThenLs32(r, 0))
    || (UpTo(l, 5) && H16(r))
    || (UpTo(l, 6) && r == [])
  }

  /** The nine alternatives of IPv6address. */
  ghost predicate Ipv6Address(t: seq<byte>) {
    ThenLs32(t, 6) || exists p: nat :: GapAt(t, p) && Sides(t[..p], t[p + 2..])
  }

  predicate ListHas(t: seq<byte>, quad: bool, n: nat) {
    var r := ListOf(t, quad);
    r.Some? && |r.value| == n
  }

  lemma H16HasNoColon(t: seq<byte>, c: nat)
    requires Cut(t, c)
    ensures FirstColon(t) == c
  {
    forall i | 0 <= i < c ensures t[i] != COLON {
      assert t[i] == t[..c][i];
    }
    FirstColonIs(t, c);
  }

  /** A list of more groups than its last piece can hold starts with an h16. */
  lemma FirstOfList(t: seq<byte>, quad: bool, n: nat)
    requires n >= (if quad then 3 else 2) && ListHas(t, quad, n)
    ensures var c := FirstColon(t); Cut(t, c) && ListHas(t[c + 1..], quad, n - 1)
  {
  }

  lemma ListCons(t: seq<byte>, c: nat, quad: bool, n: nat)
    requires n > 0 && c == FirstColon(t) && Cut(t, c) && ListHas(t[c + 1..], quad, n - 1)
    ensures ListHas(t, quad, n)
  {
  }

  lemma ThenH16Cons(t: seq<byte>, c: nat, k: nat)
    requires k > 0 && Cut(t, c) && ThenH16(t[c + 1..], k - 1)
    ensures ThenH16(t, k)
  {
  }

  lemma ThenLs32Cons(t: seq<byte>, c: nat, k: nat)
    requires k > 0 && Cut(t, c) && ThenLs32(t[c + 1..], k - 1)
    ensures ThenLs32(t, k)
  {
  }

  lemma {:induction false} ThenH16GivesList(t: seq<byte>, k: nat)
    requires ThenH16(t, k)
    ensures ListHas(t, false, k + 1)
  {
    if k == 0 {
      H16IsList(t);
    } else {
      var c: nat :| Cut(t, c) && ThenH16(t[c + 1..], k - 1);
      H16HasNoColon(t, c);
      ThenH16GivesList(t[c + 1..], k - 1);
      ListCons(t, c, false, k + 1);
    }
  }

  lemma {:induction false} ListGivesThenH16(t: seq<byte>, k: nat)
    requires ListHas(t, false, k + 1)
    ensures ThenH16(t, k)
  {
    if k == 0 {
      H16IsList(t);
    } else {
      var c := FirstColon(t);
      FirstOfList(t, false, k + 1);
      var u := t[c + 1..];
      ListGivesThenH16(u, k - 1);
      ThenH16Cons(t, c, k);
    }
  }

  lemma ThenH16IsList(t: seq<byte>, k: nat)
    ensures ThenH16(t, k) <==> ListHas(t, false, k + 1)
  {
    if ThenH16(t, k) {
      ThenH16GivesList(t, k);
    }
    if ListHas(t, false, k + 1) {
      ListGivesThenH16(t, k);
    }
  }

  lemma HexHasNoColon(t: seq<byte>)
    requires AllHex(t)
    ensures FirstColon(t) == |t|
  {
    forall i | 0 <= i < |t| ensures t[i] != COLON {
      assert IsHex(t[i]);
    }
  }

  lemma H16IsList(t: seq<byte>)
    ensures H16(t) <==> ListHas(t, false, 1)
  {
    if H16(t) {
      HexHasNoColon(t);
    }
  }

  lemma Ls32IsList(t: seq<byte>)
    ensures Ls32(t) <==> ListHas(t, true, 2)
  {
    var c := FirstColon(t);
    if exists d: nat :: Cut(t, d) && H16(t[d + 1..]) {
      var d: nat :| Cut(t, d) && H16(t[d + 1..]);
      H16HasNoColon(t, d);
      OneGroupIsH16(t[c + 1..]);
    }
    if exists ip :: Ipv4Address(t, ip) {
      var ip :| Ipv4Address(t, ip);
      QuadIsIpv4Address(t, ip);
      QuadHasNoColon(t);
    }
    if ListHas(t, true, 2) {
      if c == |t| {
        QuadIsIpv4Address(t, Quad(t).value);
      } else {
        assert Cut(t, c);
        OneGroupIsH16(t[c + 1..]);
      }
    }
  }

  lemma OneGroupIsH16(t: seq<byte>)
    ensures H16(t) <==> ListHas(t, true, 1)
  {
    if H16(t) {
      HexHasNoColon(t);
    }
  }

  lemma {:induction false} ThenLs32GivesList(t: seq<byte>, k: nat)
    requires ThenLs32(t, k)
    ensures ListHas(t, true, k + 2)
  {
    if k == 0 {
      Ls32IsList(t);
    } else {
      var c: nat :| Cut(t, c) && ThenLs32(t[c + 1..], k - 1);
      H16HasNoColon(t, c);
      ThenLs32GivesList(t[c + 1..], k - 1);
      ListCons(t, c, true, k + 2);
    }
  }

  lemma {:induction false} ListGivesThenLs32(t: seq<byte>, k: nat)
    requires ListHas(t, true, k + 2)
    ensures ThenLs32(t, k)
  {
    if k == 0 {
      Ls32IsList(t);
    } else {
      var c := FirstColon(t);
      FirstOfList(t, true, k + 2);
      var u := t[c + 1..];
      ListGivesThenLs32(u, k - 1);
      ThenLs32Cons(t, c, k);
    }
  }

  lemma ThenLs32IsList(t: seq<byte>, k: nat)
    ensures ThenLs32(t, k) <==> ListHas(t, true, k + 2)
  {
    if ThenLs32(t, k) {
      ThenLs32GivesList(t, k);
    }
    if ListHas(t, true, k + 2) {
      ListGivesThenLs32(t, k);
    }
  }

  lemma UpToIsList(t: seq<byte>, m: nat)
    ensures UpTo(t, m) <==> t == [] || (ListOf(t, false).Some? && |ListOf(t, false).value| <= m + 1)
  {
    if t != [] {
      if UpTo(t, m) {
        var k: nat :| k <= m && ThenH16(t, k);
        ThenH16IsList(t, k);
      }
      if ListOf(t, false).Some? {
        ThenH16IsList(t, |ListOf(t, false).value| - 1);
      }
    }
  }

  function Count(o: Option<seq<u16>>): int {
    if o.Some? then |o.value| else 100
  }

  lemma SidesAreLists(t: seq<byte>, p: nat)
    requires GapAt(t, p)
    ensures Sides(t[..p], t[p + 2..]) <==> Count(LeftOf(t, p)) + Count(RightOf(t, p)) <= 7
  {
    var l, r := t[..p], t[p + 2..];
    LeftCounts(t, p);
    RightCounts(t, p);
  }

  lemma LeftCounts(t: seq<byte>, p: nat)
    requires GapAt(t, p)
    ensures var l := t[..p];
            && (l == [] <==> Count(LeftOf(t, p)) == 0)
            && (UpTo(l, 0) <==> Count(LeftOf(t, p)) <= 1) && (UpTo(l, 1) <==> Count(LeftOf(t, p)) <= 2)
            && (UpTo(l, 2) <==> Count(LeftOf(t, p)) <= 3) && (UpTo(l, 3) <==> Count(LeftOf(t, p)) <= 4)
            && (UpTo(l, 4) <==> Count(LeftOf(t, p)) <= 5) && (UpTo(l, 5) <==> Count(LeftOf(t, p)) <= 6)
            && (UpTo(l, 6) <==> Count(LeftOf(t, p)) <= 7)
  {
    LeftCount(t, p, 0);
    LeftCount(t, p, 1);
    LeftCount(t, p, 2);
    LeftCount(t, p, 3);
    LeftCount(t, p, 4);
    LeftCount(t, p, 5);
    LeftCount(t, p, 6);
  }

  lemma LeftCount(t: seq<byte>, p: nat, m: nat)
    requires GapAt(t, p) && m <= 6
    ensures UpTo(t[..p], m) <==> Count(LeftOf(t, p)) <= m + 1
    ensures t[..p] == [] <==> Count(LeftOf(t, p)) == 0
  {
    UpToIsList(t[..p], m);
  }

  lemma RightCounts(t: seq<byte>, p: nat)
    requires GapAt(t, p)
    ensures var r := t[p + 2..];
            && (r == [] <==> Count(RightOf(t, p)) == 0) && (H16(r) <==> Count(RightOf(t, p)) == 1)
            && (ThenLs32(r, 0) <==> Count(RightOf(t, p)) == 2) && (ThenLs32(r, 1) <==> Count(RightOf(t, p)) == 3)
            && (ThenLs32(r, 2) <==> Count(RightOf(t, p)) == 4) && (ThenLs32(r, 3) <==> Count(RightOf(t, p)) == 5)
            && (ThenLs32(r, 4) <==> Count(RightOf(t, p)) == 6) && (ThenLs32(r, 5) <==> Count(RightOf(t, p)) == 7)
  {
    RightCount(t, p, 0);
    RightCount(t, p, 1);
    RightCount(t, p, 2);
    RightCount(t, p, 3);
    RightCount(t, p, 4);
    RightCount(t, p, 5);
  }

  lemma RightCount(t: seq<byte>, p: nat, k: nat)
    requires GapAt(t, p) && k <= 5
    ensures ThenLs32(t[p + 2..], k) <==> Count(RightOf(t, p)) == k + 2
    ensures H16(t[p + 2..]) <==> Count(RightOf(t, p)) == 1
    ensures t[p + 2..] == [] <==> Count(RightOf(t, p)) == 0
  {
    var r := t[p + 2..];
    if r == [] {
      EmptyList(true);
    }
    ThenLs32IsList(r, k);
    OneGroupIsH16(r);
  }

  /** The parser accepts exactly the texts that IPv6address derives. */
  lemma ParseIsIpv6Address(t: seq<byte>)
    ensures Parse(t).Some? <==> Ipv6Address(t)
  {
    ThenLs32IsList(t, 6);
    forall p: nat | GapAt(t, p)
      ensures Sides(t[..p], t[p + 2..]) <==> Around(t, p).Some?
    {
      SidesAreLists(t, p);
    }
    if Parse(t).Some? {
      ParseIsDenotes(t, Parse(t).value);
    }
    if ThenLs32(t, 6) {
      ParseIsDenotes(t, ListOf(t, true).value);
    }
    if exists p: nat :: GapAt(t, p) && Sides(t[..p], t[p + 2..]) {
      var p: nat :| GapAt(t, p) && Sides(t[..p], t[p + 2..]);
      ParseIsDenotes(t, Around(t, p).value);
    }
  }
}
