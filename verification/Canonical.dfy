/** Accepted implies canonical: bytes a reader frames are exactly what writing the Map they hold gives. */
module Canonical {
  import opened Words
  import opened LittleEndian
  import opened Store
  import opened Format
  import opened Framing
  import opened RoundTrip

  // ---- bytes determined by what they say ----

  lemma U32Holds(d: seq<byte>, at: nat, x: u32)
    requires at + 4 <= |d| && U32(d, at) == x
    ensures Holds(d, at, Encode(x, 4))
  {
    EncodeDecode(d[at..at + 4]);
  }

  lemma U64Holds(d: seq<byte>, at: nat, x: u64)
    requires at + 8 <= |d| && U64(d, at) == x
    ensures Holds(d, at, Encode(x, 8))
  {
    EncodeDecode(d[at..at + 8]);
  }

  lemma PackPush(w: nat, xs: seq<nat>, x: nat)
    ensures Pack(w, xs + [x]) == Pack(w, xs) + Encode(x, w)
  {
    assert EncodeAll(w, xs + [x]) == EncodeAll(w, xs) + [Encode(x, w)];
    ConcatPush(EncodeAll(w, xs), Encode(x, w));
  }

  lemma HoldsPush(d: seq<byte>, at: nat, w: nat, xs: seq<nat>, x: nat)
    requires Holds(d, at, Pack(w, xs)) && Holds(d, at + |Pack(w, xs)|, Encode(x, w))
    ensures Holds(d, at, Pack(w, xs + [x]))
  {
    PackPush(w, xs, x);
    HoldsConcat(d, at, Pack(w, xs), Encode(x, w));
  }

  lemma HoldsConcat(d: seq<byte>, at: nat, a: seq<byte>, b: seq<byte>)
    requires Holds(d, at, a) && Holds(d, at + |a|, b)
    ensures Holds(d, at, a + b)
  {
    assert d[at..at + |a| + |b|] == d[at..at + |a|] + d[at + |a|..at + |a| + |b|];
  }

  lemma EmptyHolds(d: seq<byte>, at: nat, w: nat)
    requires at <= |d|
    ensures Holds(d, at, Pack(w, []))
  {
    assert EncodeAll(w, []) == [];
  }

  lemma PairHolds(d: seq<byte>, at: nat, x: nat, y: nat)
    requires at <= |d| && Holds(d, at, Encode(x, 4)) && Holds(d, at + 4, Encode(y, 4))
    ensures Holds(d, at, Pack(4, [x, y]))
  {
    EmptyHolds(d, at, 4);
    HoldsPush(d, at, 4, [], x);
    assert [] + [x] == [x];
    HoldsPush(d, at, 4, [x], y);
    assert [x] + [y] == [x, y];
  }

  /** A row's bytes are determined by its words. */
  lemma RowDetermined(d: seq<byte>, at: nat, off: u64, len: u64, sum: u32)
    requires SaysRow(d, at, off, len, sum)
    ensures Holds(d, at, Row(off, len, sum))
  {
    U64Holds(d, at, off);
    U64Holds(d, at + 8, len);
    U32Holds(d, at + 16, sum);
    U32Holds(d, at + 20, 0);
    ZeroWord();
    HoldsNext(d, at, Encode(off, 8), at + 8, Encode(len, 8));
    HoldsNext(d, at, Encode(off, 8) + Encode(len, 8), at + 16, Encode(sum, 4));
    HoldsNext(d, at, Encode(off, 8) + Encode(len, 8) + Encode(sum, 4), at + 20, [0, 0, 0, 0]);
  }

  lemma SmallDetermined(d: seq<byte>, f: seq<nat>)
    requires |f| == 4 && SaysSmall(d, f)
    ensures Holds(d, 8, Pack(4, f))
  {
    U32Holds(d, 8, f[0]);
    U32Holds(d, 12, f[1]);
    U32Holds(d, 16, f[2]);
    U32Holds(d, 20, f[3]);
    PairHolds(d, 8, f[0], f[1]);
    HoldsPush(d, 8, 4, [f[0], f[1]], f[2]);
    assert [f[0], f[1]] + [f[2]] == f[..3];
    HoldsPush(d, 8, 4, f[..3], f[3]);
    assert f[..3] + [f[3]] == f;
  }

  ghost predicate SaysAll(d: seq<byte>, at: nat, f: seq<nat>) {
    at + |f| * 8 <= |d| && forall k: nat :: k < |f| ==> Holds(d, at + k * 8, Encode(f[k], 8))
  }

  lemma {:induction false} AllDetermined(d: seq<byte>, at: nat, f: seq<nat>)
    requires SaysAll(d, at, f)
    ensures Holds(d, at, Pack(8, f))
  {
    if f == [] {
      EmptyHolds(d, at, 8);
    } else {
      var n: nat := |f| - 1;
      forall k: nat | k < n ensures Holds(d, at + k * 8, Encode(f[..n][k], 8)) {
        assert Holds(d, at + k * 8, Encode(f[k], 8));
      }
      AllDetermined(d, at, f[..n]);
      HoldsPush(d, at, 8, f[..n], f[n]);
      assert f[..n] + [f[n]] == f;
    }
  }

  lemma LargeDetermined(d: seq<byte>, f: seq<nat>)
    requires |f| == 7 && SaysLarge(d, f)
    ensures Holds(d, 24, Pack(8, f))
  {
    U64Holds(d, 24, f[0]);
    U64Holds(d, 32, f[1]);
    U64Holds(d, 40, f[2]);
    U64Holds(d, 48, f[3]);
    U64Holds(d, 56, f[4]);
    U64Holds(d, 64, f[5]);
    U64Holds(d, 72, f[6]);
    forall k: nat | k < 7 ensures Holds(d, 24 + k * 8, Encode(f[k], 8)) {
      assert k == 0 || k == 1 || k == 2 || k == 3 || k == 4 || k == 5 || k == 6;
    }
    AllDetermined(d, 24, f);
  }

  lemma {:induction false} RowsDetermined(d: seq<byte>, at: nat, rows: seq<seq<byte>>)
    requires at <= |d| && Uniform(rows, 24) && forall i: nat :: i < |rows| ==> Holds(d, at + i * 24, rows[i])
    ensures Holds(d, at, Concat(rows))
  {
    if rows != [] {
      var n: nat := |rows| - 1;
      forall i: nat | i < n ensures Holds(d, at + i * 24, rows[..n][i]) {
        assert Holds(d, at + i * 24, rows[i]);
      }
      RowsDetermined(d, at, rows[..n]);
      ConcatLength(rows[..n], 24);
      assert Holds(d, at + n * 24, rows[n]);
      HoldsConcat(d, at, Concat(rows[..n]), rows[n]);
    }
  }

  /** A section and its padding are determined by the section and the zeros after it. */
  lemma PaddedDetermined(d: seq<byte>, off: nat, s: seq<byte>)
    requires off + Pad8(|s|) <= |d| && d[off..off + |s|] == s
    requires forall k :: off + |s| <= k < off + Pad8(|s|) ==> d[k] == 0
    ensures Holds(d, off, Padded(s))
  {
    var z := Format.Zeros(Pad8(|s|) - |s|);
    assert Holds(d, off + |s|, z);
    HoldsConcat(d, off, s, z);
  }

  /** The first `i` sections with their padding. */
  ghost function Body(secs: seq<seq<byte>>, i: nat): seq<byte>
    requires i <= |secs|
  {
    if i == 0 then [] else Body(secs, i - 1) + Padded(secs[i - 1])
  }

  lemma {:induction false} BodyIsConcat(secs: seq<seq<byte>>, i: nat)
    requires i <= |secs|
    ensures Body(secs, i) == Concat(PaddedAll(secs)[..i])
  {
    var p := PaddedAll(secs);
    if i > 0 {
      BodyIsConcat(secs, i - 1);
      ConcatTake(p, i - 1);
      assert p[i - 1] == Padded(secs[i - 1]);
    }
  }

  lemma BodyEnd(secs: seq<seq<byte>>, i: nat)
    requires i <= |secs|
    ensures OffsetAt(Lengths(secs), i) == HEADER + |Body(secs, i)|
  {
    BodyIsConcat(secs, i);
    OffsetIsLength(secs, i);
  }

  /** Section `k` stands padded at its offset. */
  ghost predicate Stands(d: seq<byte>, secs: seq<seq<byte>>, k: nat)
    requires k < |secs|
  {
    Holds(d, OffsetAt(Lengths(secs), k), Padded(secs[k]))
  }

  lemma {:induction false} BodyDetermined(d: seq<byte>, secs: seq<seq<byte>>, i: nat)
    requires |d| >= HEADER && i <= |secs|
    requires forall k: nat :: k < |secs| ==> Stands(d, secs, k)
    ensures Holds(d, HEADER, Body(secs, i))
  {
    if i > 0 {
      BodyDetermined(d, secs, i - 1);
      BodyEnd(secs, i - 1);
      assert Stands(d, secs, i - 1);
      HoldsNext(d, HEADER, Body(secs, i - 1), OffsetAt(Lengths(secs), i - 1), Padded(secs[i - 1]));
    }
  }

  lemma HoldsNext(d: seq<byte>, at: nat, a: seq<byte>, off: nat, b: seq<byte>)
    requires Holds(d, at, a) && off == at + |a| && Holds(d, off, b)
    ensures Holds(d, at, a + b)
  {
    HoldsConcat(d, at, a, b);
  }

  lemma HeadDetermined(d: seq<byte>, small: seq<nat>, large: seq<nat>, rows: seq<seq<byte>>)
    requires |small| == 4 && |large| == 7 && |rows| == SECTIONS && Uniform(rows, 24) && |d| >= HEADER
    requires d[..8] == MAGIC && SaysSmall(d, small) && SaysLarge(d, large) && Holds(d, 80, Concat(rows))
    ensures Holds(d, 0, Head(small, large, rows))
  {
    SmallDetermined(d, small);
    LargeDetermined(d, large);
    HoldsNext(d, 0, MAGIC, 8, Pack(4, small));
    HoldsNext(d, 0, MAGIC + Pack(4, small), 24, Pack(8, large));
    HoldsNext(d, 0, MAGIC + Pack(4, small) + Pack(8, large), 80, Concat(rows));
  }

  /** A file is determined by its header words, table rows and sections. */
  lemma FileDetermined(crc: Checksum, d: seq<byte>, small: seq<nat>, large: seq<nat>, secs: seq<seq<byte>>)
    requires |small| == 4 && |large| == 7 && |secs| == SECTIONS && |d| >= HEADER
    requires d[..8] == MAGIC && SaysSmall(d, small) && SaysLarge(d, large)
    requires Holds(d, 80, Concat(TableRows(crc, secs)))
    requires Holds(d, 272, Pack(4, [crc(d[..272]), 0]))
    requires Holds(d, HEADER, Concat(PaddedAll(secs))) && |d| == HEADER + |Concat(PaddedAll(secs))|
    ensures d == File(crc, small, large, secs)
  {
    var head := Head(small, large, TableRows(crc, secs));
    HeadDetermined(d, small, large, TableRows(crc, secs));
    FileOf(crc, d, head, Concat(PaddedAll(secs)));
  }

  lemma FileOf(crc: Checksum, d: seq<byte>, head: seq<byte>, body: seq<byte>)
    requires |head| == 272 && Holds(d, 0, head) && Holds(d, 272, Pack(4, [crc(d[..272]), 0]))
    requires Holds(d, HEADER, body) && |d| == HEADER + |body|
    ensures d == WithSum(crc, head) + body
  {
    HoldsNext(d, 0, head, 272, Pack(4, [crc(d[..272]), 0]));
    HoldsNext(d, 0, WithSum(crc, head), HEADER, body);
  }

  // ---- the Map over the bytes ----

  /** The counts and section lengths of a framed file make a well-shaped Map. */
  lemma ViewHasGeometry(c: Counts, secs: seq<seq<byte>>)
    requires CountsOk(c) && |secs| == SECTIONS && Lengths(secs) == Expected(c)
    ensures Geometry(ViewOf(c, secs)) && CountsFor(ViewOf(c, secs)) == c
    ensures Reopened(ViewOf(c, secs)) == ViewOf(c, secs)
  {
    var lens := Lengths(secs);
    assert forall k :: 0 <= k < SECTIONS ==> |secs[k]| == Expected(c)[k];
    if c.interned {
      MulMono(1, c.distinct, c.valLen);
    }
  }

  lemma Repacked32(b: seq<byte>)
    requires |b| % 4 == 0
    ensures Pack(4, View32(b)) == b
  {
    PackUnpack(4, b);
  }

  lemma Repacked64(b: seq<byte>)
    requires |b| % 8 == 0
    ensures Pack(8, View64(b)) == b
  {
    PackUnpack(8, b);
  }

  lemma Sections4OfView(c: Counts, secs: seq<seq<byte>>)
    requires CountsOk(c) && |secs| == SECTIONS && Lengths(secs) == Expected(c)
    ensures Sections4(ViewOf(c, secs)) == secs[..3]
  {
    assert forall k :: 0 <= k < 3 ==> |secs[k]| == Expected(c)[k];
    if c.n4 > 0 {
      Repacked32(secs[0]);
    }
  }

  lemma Expected6Of(c: Counts, secs: seq<seq<byte>>)
    requires |secs| == SECTIONS && Lengths(secs) == Expected(c) && c.n6 > 0
    ensures |secs[3]| == c.np * 8 && |secs[4]| == (c.np + 1) * 4
    ensures |secs[5]| == c.n6 * 8 && |secs[6]| == c.n6 * PerVal(c)
  {
    assert forall k :: 0 <= k < SECTIONS ==> |secs[k]| == Expected(c)[k];
    assert Expected(c)[3] == Expected6(c)[0] && Expected(c)[4] == Expected6(c)[1];
    assert Expected(c)[5] == Expected6(c)[2] && Expected(c)[6] == Expected6(c)[3];
  }

  lemma PrefixesRepacked(np: nat, p: seq<byte>, i: seq<byte>)
    requires |p| == np * 8 && |i| == (np + 1) * 4
    ensures |View64(p)| == np && |View32(i)| == np + 1
    ensures Pack(8, View64(p)) == p && Pack(4, View32(i)[..np + 1]) == i
  {
    Repacked64(p);
    Repacked32(i);
    assert View32(i)[..np + 1] == View32(i);
  }

  lemma PayloadOfView(c: Counts, n: nat, sec: seq<byte>, tab: seq<byte>)
    requires CountsOk(c) && n > 0 && |sec| == n * PerVal(c)
    ensures Payload(ValuesOver(c, sec, tab)) == sec
  {
    MulMono(1, n, PerVal(c));
  }

  lemma Empty6(c: Counts, secs: seq<seq<byte>>)
    requires |secs| == SECTIONS && Lengths(secs) == Expected(c) && c.n6 == 0
    ensures secs[3..7] == [[], [], [], []]
  {
    assert forall k :: 3 <= k < 7 ==> |secs[k]| == Expected(c)[k] == Expected6(c)[k - 3] == 0;
  }

  /** The 128-bit store over four sections has those sections. */
  lemma Store6Repacked(c: Counts, p: seq<byte>, i: seq<byte>, s: seq<byte>, v: seq<byte>, tab: seq<byte>)
    requires CountsOk(c) && c.n6 > 0 && |p| == c.np * 8 && |i| == (c.np + 1) * 4
    requires |s| == c.n6 * 8 && |v| == c.n6 * PerVal(c)
    ensures var t := Store6(View64(p), View32(i), View64(s), ValuesOver(c, v, tab));
            && |t.pidx| > |t.prefix| && Pack(8, t.prefix) == p && Pack(4, t.pidx[..|t.prefix| + 1]) == i
            && Pack(8, t.suffix) == s && Payload(t.vals) == v
  {
    PrefixesRepacked(c.np, p, i);
    Repacked64(s);
    PayloadOfView(c, c.n6, v, tab);
  }

  lemma Sections6Of(m: Map, p: seq<byte>, i: seq<byte>, s: seq<byte>, v: seq<byte>)
    requires m.stats.addrs6 > 0 && |m.s6.pidx| > |m.s6.prefix|
    requires Pack(8, m.s6.prefix) == p && Pack(4, m.s6.pidx[..|m.s6.prefix| + 1]) == i
    requires Pack(8, m.s6.suffix) == s && Payload(m.s6.vals) == v
    ensures Sliceable(m) && Sections6(m) == [p, i, s, v]
  {
  }

  lemma Full6(c: Counts, secs: seq<seq<byte>>)
    requires CountsOk(c) && c.n6 > 0 && |secs| == SECTIONS && |secs[3]| == c.np * 8 && |secs[4]| == (c.np + 1) * 4
    requires |secs[5]| == c.n6 * 8 && |secs[6]| == c.n6 * PerVal(c)
    ensures Sliceable(ViewOf(c, secs)) && Sections6(ViewOf(c, secs)) == secs[3..7]
  {
    Store6Repacked(c, secs[3], secs[4], secs[5], secs[6], secs[7]);
    Sections6Of(ViewOf(c, secs), secs[3], secs[4], secs[5], secs[6]);
    assert secs[3..7] == [secs[3], secs[4], secs[5], secs[6]];
  }

  lemma Sections6OfView(c: Counts, secs: seq<seq<byte>>)
    requires CountsOk(c) && |secs| == SECTIONS && Lengths(secs) == Expected(c)
    ensures Sliceable(ViewOf(c, secs)) && Sections6(ViewOf(c, secs)) == secs[3..7]
  {
    if c.n6 > 0 {
      Expected6Of(c, secs);
      Full6(c, secs);
    } else {
      Empty6(c, secs);
    }
  }

  lemma TableOfView(c: Counts, secs: seq<seq<byte>>)
    requires CountsOk(c) && |secs| == SECTIONS && Lengths(secs) == Expected(c)
    ensures (if Interned(ViewOf(c, secs)) then TabBytes(ViewOf(c, secs)) else []) == secs[7]
  {
    assert |secs[7]| == Expected(c)[7];
    if c.interned {
      MulMono(1, c.distinct, c.valLen);
    }
  }

  lemma SectionsOfView(c: Counts, secs: seq<seq<byte>>)
    requires CountsOk(c) && |secs| == SECTIONS && Lengths(secs) == Expected(c)
    ensures Sliceable(ViewOf(c, secs)) && Sections(ViewOf(c, secs)) == secs
  {
    Sections4OfView(c, secs);
    Sections6OfView(c, secs);
    TableOfView(c, secs);
    EightPieces(secs);
  }

  lemma EightPieces(secs: seq<seq<byte>>)
    requires |secs| == SECTIONS
    ensures secs == secs[..3] + secs[3..7] + [secs[7]]
  {
  }

  lemma HeaderSays(d: seq<byte>, m: Map)
    requires |d| >= HEADER && CountsOf(d) == CountsFor(m) && U32(d, 8) == 1 && U32(d, 12) <= 1
    ensures SaysSmall(d, Small(m)) && SaysLarge(d, Large(m))
  {
  }

  ghost predicate SectionIs(d: seq<byte>, lens: seq<nat>, i: nat, s: seq<byte>)
    requires i < |lens|
  {
    |s| == lens[i] && Holds(d, OffsetAt(lens, i), s)
  }

  lemma RowSays(crc: Checksum, d: seq<byte>, lens: seq<nat>, i: nat, s: seq<byte>)
    requires |d| >= HEADER && |lens| == SECTIONS && i < SECTIONS && SectionOk(crc, d, lens, i)
    requires U32(d, 80 + i * 24 + 20) == 0 && SectionIs(d, lens, i, s)
    ensures SaysRow(d, 80 + i * 24, OffsetAt(lens, i), |s|, crc(s))
  {
  }

  lemma RowBytes(crc: Checksum, d: seq<byte>, lens: seq<nat>, i: nat, s: seq<byte>)
    requires |d| >= HEADER && |lens| == SECTIONS && i < SECTIONS && SectionOk(crc, d, lens, i)
    requires U32(d, 80 + i * 24 + 20) == 0 && SectionIs(d, lens, i, s)
    ensures Holds(d, 80 + i * 24, Row(OffsetAt(lens, i), |s|, crc(s)))
  {
    RowSays(crc, d, lens, i, s);
    RowDetermined(d, 80 + i * 24, U64(d, 80 + i * 24), U64(d, 80 + i * 24 + 8), crc(s));
  }

  lemma SectionBytes(crc: Checksum, d: seq<byte>, lens: seq<nat>, i: nat, s: seq<byte>)
    requires |d| >= HEADER && |lens| == SECTIONS && i < SECTIONS && SectionOk(crc, d, lens, i)
    requires SectionIs(d, lens, i, s)
    ensures Holds(d, OffsetAt(lens, i), Padded(s))
  {
    PaddedDetermined(d, OffsetAt(lens, i), s);
  }

  ghost predicate SectionsAre(d: seq<byte>, lens: seq<nat>, secs: seq<seq<byte>>) {
    |lens| == |secs| == SECTIONS && forall i: nat :: i < SECTIONS ==> SectionIs(d, lens, i, secs[i])
  }

  lemma SectionsInAre(d: seq<byte>, lens: seq<nat>)
    requires |lens| == SECTIONS && forall i :: 0 <= i < SECTIONS ==> OffsetAt(lens, i) + lens[i] <= |d|
    ensures Lengths(SectionsIn(d, lens)) == lens && SectionsAre(d, lens, SectionsIn(d, lens))
  {
    var secs := SectionsIn(d, lens);
    forall i: nat | i < |lens| ensures SectionIs(d, lens, i, secs[i]) {
      assert secs[i] == Section(d, lens, i);
    }
    assert Lengths(secs) == lens;
  }

  lemma TableSays(crc: Checksum, d: seq<byte>, secs: seq<seq<byte>>, lens: seq<nat>)
    requires |d| >= HEADER && SectionsAre(d, lens, secs) && lens == Lengths(secs) && SectionsOk(crc, d, lens)
    requires forall i :: 0 <= i < SECTIONS ==> U32(d, 80 + i * 24 + 20) == 0
    ensures Holds(d, 80, Concat(TableRows(crc, secs)))
  {
    var rows := TableRows(crc, secs);
    forall i: nat | i < |rows| ensures Holds(d, 80 + i * 24, rows[i]) {
      assert SectionOk(crc, d, lens, i);
      RowBytes(crc, d, lens, i, secs[i]);
    }
    RowsDetermined(d, 80, rows);
  }

  lemma BodySays(crc: Checksum, d: seq<byte>, secs: seq<seq<byte>>, lens: seq<nat>)
    requires |d| >= HEADER && SectionsAre(d, lens, secs) && lens == Lengths(secs) && SectionsOk(crc, d, lens)
    ensures Holds(d, HEADER, Concat(PaddedAll(secs))) && |d| == HEADER + |Concat(PaddedAll(secs))|
  {
    var n := |secs|;
    forall i: nat | i < n ensures Stands(d, secs, i) {
      assert SectionOk(crc, d, lens, i) && SectionIs(d, lens, i, secs[i]);
      SectionBytes(crc, d, lens, i, secs[i]);
    }
    BodyDetermined(d, secs, n);
    BodyIsConcat(secs, n);
    assert PaddedAll(secs)[..n] == PaddedAll(secs);
    EndsAtEof(secs);
  }

  lemma TailHolds(crc: Checksum, d: seq<byte>)
    requires FixedOk(crc, d)
    ensures Holds(d, 272, Pack(4, [crc(d[..272]), 0]))
  {
    U32Holds(d, 272, crc(d[..272]));
    U32Holds(d, 276, 0);
    PairHolds(d, 272, crc(d[..272]), 0);
  }

  lemma RewritesTo(crc: Checksum, d: seq<byte>, secs: seq<seq<byte>>, m: Map)
    requires FixedOk(crc, d) && CountsOf(d) == CountsFor(m) && Sliceable(m) && Sections(m) == secs
    requires SectionsAre(d, Lengths(secs), secs) && SectionsOk(crc, d, Lengths(secs))
    ensures Write(crc, m) == d
  {
    HeaderSays(d, m);
    TableSays(crc, d, secs, Lengths(secs));
    BodySays(crc, d, secs, Lengths(secs));
    TailHolds(crc, d);
    FileDetermined(crc, d, Small(m), Large(m), secs);
  }

  lemma ViewIsCanonical(crc: Checksum, d: seq<byte>, c: Counts, secs: seq<seq<byte>>)
    requires FixedOk(crc, d) && CountsOf(d) == c && CountsOk(c) && |secs| == SECTIONS && Lengths(secs) == Expected(c)
    requires SectionsAre(d, Lengths(secs), secs) && SectionsOk(crc, d, Lengths(secs))
    ensures var m := ViewOf(c, secs); Geometry(m) && Reopened(m) == m && Write(crc, m) == d
  {
    ViewHasGeometry(c, secs);
    SectionsOfView(c, secs);
    RewritesTo(crc, d, secs, ViewOf(c, secs));
  }

  /**
   * Whatever bytes a reader frames, the Map it views is well-shaped and writing that Map gives the bytes back:
   * every header field, reserved word, section and padding byte, and the end of the file.
   */
  lemma FramedIsCanonical(crc: Checksum, d: seq<byte>)
    requires FramingOk(crc, d)
    ensures var m := MapIn(crc, d); Geometry(m) && Reopened(m) == m && Write(crc, m) == d
  {
    var c := CountsOf(d);
    var lens := Expected(c);
    FramingFits(crc, d, lens);
    SectionsInAre(d, lens);
    ViewIsCanonical(crc, d, c, SectionsIn(d, lens));
  }
}
