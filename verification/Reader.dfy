/** format.go: openBytes, validate and their loops, proved to decide exactly what the format says. */
module Reader {
  import opened Words
  import opened LittleEndian
  import opened Values
  import opened Groups
  import opened Store
  import opened Format
  import opened Framing
  import opened RoundTrip
  import opened Canonical

  // ---- validate ----

  /** Each prefix is compared with the one before it only. */
  method CheckPrefixes(prefix: seq<u64>) returns (ok: bool)
    ensures ok <==> StrictlyAscending(prefix)
  {
    var i := 1;
    while i < |prefix|
      invariant 1 <= i && (i <= |prefix| || prefix == [])
      invariant forall a, b :: 0 <= a < b < i && b < |prefix| ==> prefix[a] < prefix[b]
    {
      if prefix[i - 1] >= prefix[i] {
        return false;
      }
      i := i + 1;
    }
    return true;
  }

  ghost predicate IdHeld(v: Values, i: nat) {
    (i + 1) * v.idW <= |v.ids|
  }

  ghost predicate IdsHeld(v: Values, n: nat) {
    forall i: nat :: i < n ==> IdHeld(v, i)
  }

  method CheckIds(v: Values, n: nat, distinct: nat) returns (ok: bool)
    requires IdsHeld(v, n)
    ensures ok <==> IdsBelow(v, n, distinct)
  {
    var i: nat := 0;
    while i < n
      invariant i <= n && IdsBelow(v, i, distinct)
    {
      assert IdHeld(v, i);
      var id := Id(v, i);
      if id >= distinct {
        return false;
      }
      i := i + 1;
    }
    return true;
  }

  lemma ShapedHoldsIds(v: Values, n: nat, valLen: nat, distinct: nat)
    requires Shaped(v, n, valLen, distinct) && distinct > 0
    ensures IdsHeld(v, n)
  {
    forall i: nat | i < n ensures IdHeld(v, i) {
      MulMono(i + 1, n, v.idW);
    }
  }

  /** validate, on a Map whose counts and array sizes openBytes has already matched. */
  method Validate(m: Map) returns (v: Verdict)
    requires Geometry(m)
    ensures v == MapVerdict(m)
  {
    var n4, n6 := m.stats.addrs4, m.stats.addrs6;
    if n4 > 0 {
      v := CheckGroups(m.s4.idx, m.s4.suffix, n4, 0, 0x100);
      if v != Good {
        return v;
      }
    }
    if n6 > 0 {
      var ascending := CheckPrefixes(m.s6.prefix);
      if !ascending {
        return Bad;
      }
      v := CheckGroups(m.s6.pidx, m.s6.suffix, n6, 1, 0x1_0000_0000_0000_0000);
      if v != Good {
        return v;
      }
    }
    v := ValidateIds(m);
  }

  method ValidateIds(m: Map) returns (v: Verdict)
    requires Geometry(m)
    ensures v == IdsVerdict(m)
  {
    if Interned(m) {
      if m.stats.addrs4 > 0 {
        ShapedHoldsIds(m.s4.vals, m.stats.addrs4, m.valLen, m.stats.distinct);
        var ok := CheckIds(m.s4.vals, m.stats.addrs4, m.stats.distinct);
        if !ok {
          return Bad;
        }
      }
      if m.stats.addrs6 > 0 {
        ShapedHoldsIds(m.s6.vals, m.stats.addrs6, m.valLen, m.stats.distinct);
        var ok := CheckIds(m.s6.vals, m.stats.addrs6, m.stats.distinct);
        if !ok {
          return Bad;
        }
      }
    }
    return Good;
  }

  // ---- openBytes ----

  /** Magic, header checksum, version, flags and reserved words. */
  method CheckFixed(crc: Checksum, d: seq<byte>) returns (ok: bool)
    ensures ok <==> FixedOk(crc, d)
  {
    if |d| < HEADER || d[..8] != MAGIC {
      return false;
    }
    if crc(d[..272]) != U32(d, 272) {
      return false;
    }
    if U32(d, 8) != 1 || U32(d, 12) / 2 != 0 {
      return false;
    }
    var i := 0;
    while i < SECTIONS
      invariant 0 <= i <= SECTIONS
      invariant forall k :: 0 <= k < i ==> U32(d, 80 + k * 24 + 20) == 0
    {
      if U32(d, 80 + i * 24 + 20) != 0 {
        return false;
      }
      i := i + 1;
    }
    return U32(d, 276) == 0;
  }

  /** The bytes an id takes among `n` rows. */
  function WidthOf(n: nat): nat {
    if n <= 256 then 1 else if n <= 65536 then 2 else if n <= 16777216 then 3 else 4
  }

  /** The header-count cases that a reader refuses, in the source's order. */
  method CheckCounts(c: Counts) returns (ok: bool)
    requires c.n4 < 0x1_0000_0000_0000_0000 && c.n6 < 0x1_0000_0000_0000_0000
    requires c.distinct < 0x1_0000_0000_0000_0000
    ensures ok <==> CountsOk(c)
    ensures ok <==>
            && 1 <= c.valLen <= 4096 && c.n4 <= 0xFFFF_FFFF && c.n6 <= 0xFFFF_FFFF
            && c.np <= c.n6 && (c.n6 > 0 ==> c.np > 0) && c.confl <= c.dups <= 0x7FFF_FFFF_FFFF_FFFF
            && if c.interned then 0 < c.distinct <= 0xFFFF_FFFF && c.n4 + c.n6 > 0 && c.idW == WidthOf(c.distinct)
               else c.distinct == 0 && c.idW == 0
  {
    if c.valLen < 1 || c.valLen > MAX_VAL_LEN {
      return false;
    }
    if c.n4 > MAX_U32 || c.n6 > MAX_U32 || c.np > c.n6 {
      return false;
    }
    if c.n6 > 0 && c.np == 0 {
      return false;
    }
    if c.dups > MAX_I64 || c.confl > c.dups {
      return false;
    }
    if c.interned && (c.idW != IdWidth(Signed(c.distinct)) || c.distinct == 0 || c.distinct > MAX_U32) {
      return false;
    }
    if c.interned && (c.n4 + c.n6) % 0x1_0000_0000_0000_0000 == 0 {
      return false;
    }
    return c.interned || (c.idW == 0 && c.distinct == 0);
  }

  /** pad8 of a 64-bit length: the sum may wrap. */
  function Pad8U(n: u64): (p: u64)
    ensures n <= 0x1_0000_0000_0000 ==> p == Pad8(n)
  {
    (n + 7) % 0x1_0000_0000_0000_0000 / 8 * 8
  }

  method AllZero(d: seq<byte>, from: nat, to: nat) returns (ok: bool)
    requires from <= to <= |d|
    ensures ok <==> forall k :: from <= k < to ==> d[k] == 0
  {
    var k := from;
    while k < to
      invariant from <= k <= to
      invariant forall j :: from <= j < k ==> d[j] == 0
    {
      if d[k] != 0 {
        return false;
      }
      k := k + 1;
    }
    return true;
  }

  /** The geometry test of one row, with its 64-bit sums. */
  method CheckPlace(d: seq<byte>, at: nat, off: u64, len: nat) returns (ok: bool)
    requires at + 24 <= |d| <= MAX_I64 && off <= |d| && off % 8 == 0 && len <= LIMIT
    ensures ok <==> Placed(d, at, off, len)
  {
    var o, l := U64(d, at), U64(d, at + 8);
    if l != len || o != off || o % 8 != 0 {
      return false;
    }
    NoWrap(o, l);
    var padEnd: u64 := (o + Pad8U(l)) % 0x1_0000_0000_0000_0000;
    return padEnd >= o && padEnd <= |d|;
  }

  lemma NoWrap(o: nat, l: nat)
    requires o <= MAX_I64 && l <= LIMIT
    ensures (o + Pad8U(l)) % 0x1_0000_0000_0000_0000 == o + Pad8(l)
  {
    SmallMod(o + Pad8(l));
  }

  lemma SmallMod(x: nat)
    requires x < 0x1_0000_0000_0000_0000
    ensures x % 0x1_0000_0000_0000_0000 == x
  {
  }

  method CheckSeal(crc: Checksum, d: seq<byte>, off: nat, len: nat, sum: u32) returns (ok: bool)
    requires off + Pad8(len) <= |d| && len <= LIMIT
    ensures ok <==> Sealed(crc, d, off, len, sum)
  {
    if crc(d[off..off + len]) != sum {
      return false;
    }
    ok := AllZero(d, off + len, off + Pad8U(len));
  }

  /** Section `i` is in order and is `s`. */
  ghost predicate SectionIs(crc: Checksum, d: seq<byte>, lens: seq<nat>, i: nat, s: seq<byte>)
    requires |d| >= HEADER && |lens| == SECTIONS && i < SECTIONS
  {
    SectionOk(crc, d, lens, i) && s == Section(d, lens, i)
  }

  /** One turn of the section loop: `off` is where the section must start. */
  method CheckSection(crc: Checksum, d: seq<byte>, lens: seq<nat>, i: nat, off: u64)
    returns (ok: bool, s: seq<byte>, next: u64)
    requires HEADER <= |d| <= MAX_I64 && |lens| == SECTIONS && i < SECTIONS
    requires off == OffsetAt(lens, i) <= |d| && lens[i] <= LIMIT
    ensures ok <==> SectionOk(crc, d, lens, i)
    ensures ok ==> SectionIs(crc, d, lens, i, s) && next == OffsetAt(lens, i + 1) <= |d|
  {
    s, next := [], off;
    ok := CheckPlace(d, 80 + i * 24, off, lens[i]);
    if ok {
      s := d[off..off + lens[i]];
      ok := CheckSeal(crc, d, off, lens[i], U32(d, 80 + i * 24 + 16));
      next := off + Pad8U(lens[i]);
    }
  }

  ghost predicate FirstAre(crc: Checksum, d: seq<byte>, lens: seq<nat>, secs: seq<seq<byte>>, n: nat)
    requires |d| >= HEADER && |lens| == SECTIONS && |secs| == n <= |lens|
  {
    forall k: nat :: k < n ==> SectionIs(crc, d, lens, k, secs[k])
  }

  lemma OneIs(crc: Checksum, d: seq<byte>, lens: seq<nat>, i: nat, s: seq<byte>)
    requires |d| >= HEADER && |lens| == SECTIONS && i < |lens| && SectionIs(crc, d, lens, i, s)
    ensures OffsetAt(lens, i) + lens[i] <= |d| && s == Section(d, lens, i) && SectionOk(crc, d, lens, i)
  {
  }

  lemma AllAre(crc: Checksum, d: seq<byte>, lens: seq<nat>, secs: seq<seq<byte>>)
    requires |d| >= HEADER && |lens| == SECTIONS && |secs| == |lens|
    requires FirstAre(crc, d, lens, secs, |lens|) && OffsetAt(lens, |lens|) == |d|
    ensures SectionsOk(crc, d, lens)
  {
    forall i: nat | i < |lens| ensures SectionOk(crc, d, lens, i) {
      OneIs(crc, d, lens, i, secs[i]);
    }
  }

  lemma AllRead(crc: Checksum, d: seq<byte>, lens: seq<nat>, secs: seq<seq<byte>>)
    requires |d| >= HEADER && |lens| == SECTIONS && |secs| == |lens|
    requires FirstAre(crc, d, lens, secs, |lens|)
    ensures forall i :: 0 <= i < SECTIONS ==> OffsetAt(lens, i) + lens[i] <= |d|
    ensures secs == SectionsIn(d, lens)
  {
    forall i: nat | i < |lens|
      ensures OffsetAt(lens, i) + lens[i] <= |d| && secs[i] == Section(d, lens, i)
    {
      OneIs(crc, d, lens, i, secs[i]);
    }
  }

  /** Every section in file order, and nothing after the last. */
  method CheckSections(crc: Checksum, d: seq<byte>, lens: seq<nat>) returns (ok: bool, secs: seq<seq<byte>>)
    requires HEADER <= |d| <= MAX_I64 && |lens| == SECTIONS && forall k :: 0 <= k < |lens| ==> lens[k] <= LIMIT
    ensures ok <==> SectionsOk(crc, d, lens)
    ensures ok ==> forall i :: 0 <= i < SECTIONS ==> OffsetAt(lens, i) + lens[i] <= |d|
    ensures ok ==> secs == SectionsIn(d, lens)
  {
    var off: u64 := HEADER;
    secs := [];
    var i: nat := 0;
    while i < |lens|
      invariant i <= |lens| && off == OffsetAt(lens, i) <= |d| && |secs| == i
      invariant FirstAre(crc, d, lens, secs, i)
    {
      var good, s, next := CheckSection(crc, d, lens, i, off);
      if !good {
        return false, [];
      }
      secs := secs + [s];
      off := next;
      i := i + 1;
    }
    ok := off == |d|;
    if ok {
      AllAre(crc, d, lens, secs);
      AllRead(crc, d, lens, secs);
    }
  }

  /** openBytes, on bytes no longer than a slice can be. */
  method OpenBytes(crc: Checksum, d: seq<byte>) returns (r: OpenResult)
    requires |d| <= MAX_I64
    ensures r == Open(crc, d)
  {
    var fixed := CheckFixed(crc, d);
    if !fixed {
      return Rejected;
    }
    var c := CountsOf(d);
    var counts := CheckCounts(c);
    if !counts {
      return Rejected;
    }
    LengthsFit(c);
    var framed, secs := CheckSections(crc, d, Expected(c));
    if !framed {
      return Rejected;
    }
    FramedIsCanonical(crc, d);
    var v := Validate(ViewOf(c, secs));
    match v
    case Good => r := Accepted(ViewOf(c, secs));
    case Bad => r := Rejected;
    case Panic => r := Panicked;
  }
}
