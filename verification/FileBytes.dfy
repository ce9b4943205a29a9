/** The format byte by byte: what stands at each offset of an artifact, written out rather than computed. */
module FileBytes {
  import opened Words
  import opened LittleEndian
  import opened Values
  import opened Store
  import opened Format
  import opened Framing
  import opened RoundTrip
  import ArtifactLaws

  // ---- the format ----

  /** A 32-bit word, low byte first. */
  predicate Word32(d: seq<byte>, at: nat, x: nat) {
    && at + 4 <= |d| && x < 0x1_0000_0000
    && d[at] == x % 0x100 && d[at + 1] == x / 0x100 % 0x100
    && d[at + 2] == x / 0x1_0000 % 0x100 && d[at + 3] == x / 0x100_0000
  }

  /** A 64-bit word, low half first. */
  predicate Word64(d: seq<byte>, at: nat, x: nat) {
    && x < 0x1_0000_0000_0000_0000
    && Word32(d, at, x % 0x1_0000_0000) && Word32(d, at + 4, x / 0x1_0000_0000)
  }

  ghost predicate Words32(b: seq<byte>, xs: seq<u32>) {
    |b| == |xs| * 4 && forall k: nat :: k < |xs| ==> Word32(b, k * 4, xs[k])
  }

  ghost predicate Words64(b: seq<byte>, xs: seq<u64>) {
    |b| == |xs| * 8 && forall k: nat :: k < |xs| ==> Word64(b, k * 8, xs[k])
  }

  /** The bytes beside each entry: its value, or its id when there is a table. */
  function PerEntry(m: Map, v: Values): seq<byte> {
    if m.stats.distinct > 0 then v.ids else v.direct
  }

  /** Section by section, by name. */
  ghost predicate HoldsSection(m: Map, i: nat, b: seq<byte>) {
    if i < 3 && m.stats.addrs4 == 0 then b == []
    else if 3 <= i < 7 && m.stats.addrs6 == 0 then b == []
    else match i
      case 0 => |b| == 0x400_0004 && Words32(b, m.s4.idx)
      case 1 => b == m.s4.suffix
      case 2 => b == PerEntry(m, m.s4.vals)
      case 3 => Words64(b, m.s6.prefix)
      case 4 => Words32(b, m.s6.pidx)
      case 5 => Words64(b, m.s6.suffix)
      case 6 => b == PerEntry(m, m.s6.vals)
      case 7 => b == if m.stats.distinct == 0 then [] else if m.stats.addrs4 > 0 then m.s4.vals.tab else m.s6.vals.tab
      case _ => false
  }

  /** The header's fields at their offsets. */
  ghost predicate HoldsHeader(m: Map, d: seq<byte>) {
    |d| >= 280 && HoldsFormat(m, d) && HoldsCounts(m, d)
  }

  /** The magic, the version, the flags and the widths. */
  ghost predicate HoldsFormat(m: Map, d: seq<byte>)
    requires |d| >= 280
  {
    var s := m.stats;
    && d[..8] == [0x49, 0x50, 0x4D, 0x41, 0x50, 0x44, 0x42, 0x00]
    && Word32(d, 8, 1) && Word32(d, 12, if s.distinct > 0 then 1 else 0) && Word32(d, 16, m.valLen)
    && Word32(d, 20, if s.distinct == 0 then 0 else if s.distinct <= 0x100 then 1 else if s.distinct <= 0x1_0000 then 2
                     else if s.distinct <= 0x100_0000 then 3 else 4)
  }

  /** The epoch and the counts. */
  ghost predicate HoldsCounts(m: Map, d: seq<byte>)
    requires |d| >= 280
  {
    var s := m.stats;
    && Word64(d, 24, if m.epoch < 0 then m.epoch + 0x1_0000_0000_0000_0000 else m.epoch)
    && Word64(d, 32, s.addrs4) && Word64(d, 40, s.addrs6) && Word64(d, 48, |m.s6.prefix|)
    && Word64(d, 56, s.distinct) && Word64(d, 64, s.dups) && Word64(d, 72, s.dupConflicts)
  }

  /** Section `i` stands at `off` with the zeros that pad it up to `end`, and its row says where and what it is. */
  ghost predicate HoldsRow(crc: Checksum, d: seq<byte>, i: nat, off: nat, b: seq<byte>, end: nat) {
    && Word64(d, 80 + i * 24, off) && Word64(d, 88 + i * 24, |b|) && Word32(d, 96 + i * 24, crc(b))
    && Word32(d, 100 + i * 24, 0)
    && off + |b| <= end <= |d| && end % 8 == 0 && end < off + |b| + 8 && d[off..off + |b|] == b
    && forall k :: off + |b| <= k < end ==> d[k] == 0
  }

  /** The eight sections in slot order, gap-free from byte 280 to the end of the file, each with its row. */
  ghost predicate HoldsBody(crc: Checksum, m: Map, d: seq<byte>, offs: seq<nat>, secs: seq<seq<byte>>) {
    && |secs| == 8 && |offs| == 9 && offs[0] == 280 && offs[8] == |d|
    && forall i: nat :: i < 8 ==> HoldsSection(m, i, secs[i]) && HoldsRow(crc, d, i, offs[i], secs[i], offs[i + 1])
  }

  /** The header's own checksum, and the word after it. */
  ghost predicate HoldsSum(crc: Checksum, d: seq<byte>) {
    |d| >= 280 && Word32(d, 272, crc(d[..272])) && Word32(d, 276, 0)
  }

  // ---- words ----

  lemma WordBytes(d: seq<byte>, at: nat, x: nat)
    requires at + 4 <= |d| && Decode(d[at..at + 4]) == x
    ensures Word32(d, at, x)
  {
    var b := d[at..at + 4];
    Pow256Values();
    EncodeDecode(b);
    EncodeByte(x, 4, 0);
    EncodeByte(x, 4, 1);
    EncodeByte(x, 4, 2);
    EncodeByte(x, 4, 3);
    assert Pow256(0) == 1;
  }

  lemma LongWordBytes(d: seq<byte>, at: nat, x: nat)
    requires at + 8 <= |d| && Decode(d[at..at + 8]) == x
    ensures Word64(d, at, x)
  {
    var b := d[at..at + 8];
    DecodeHalves(b);
    Pow256Values();
    assert d[at..at + 4] == b[..4] && d[at + 4..at + 8] == b[4..];
    WordBytes(d, at, Decode(b[..4]));
    WordBytes(d, at + 4, Decode(b[4..]));
    HalvesOf(x, Decode(b[..4]), Decode(b[4..]));
  }

  lemma HalvesOf(x: nat, lo: nat, hi: nat)
    requires lo < 0x1_0000_0000 && x == lo + 0x1_0000_0000 * hi
    ensures x % 0x1_0000_0000 == lo && x / 0x1_0000_0000 == hi
  {
  }

  lemma DecodeHalves(b: seq<byte>)
    requires |b| == 8
    ensures Decode(b) == Decode(b[..4]) + 0x1_0000_0000 * Decode(b[4..])
    ensures Decode(b[..4]) < 0x1_0000_0000 && Decode(b[4..]) < 0x1_0000_0000
  {
    Pow256Values();
    DecodeConcat(b[..4], b[4..]);
    assert b == b[..4] + b[4..];
  }

  lemma {:induction false} DecodeConcat(a: seq<byte>, b: seq<byte>)
    ensures Decode(a + b) == Decode(a) + Pow256(|a|) * Decode(b)
  {
    if a == [] {
      assert a + b == b;
    } else {
      DecodeConcat(a[1..], b);
      assert (a + b)[1..] == a[1..] + b;
      ShiftedTail(a[0], Decode(a[1..]), Pow256(|a| - 1), Decode(b));
    }
  }

  lemma ShiftedTail(d: nat, x: nat, p: nat, y: nat)
    ensures d + 256 * (x + p * y) == d + 256 * x + (256 * p) * y
  {
  }

  lemma ReadWord(d: seq<byte>, at: nat, x: nat)
    requires at + 4 <= |d| && U32(d, at) == x
    ensures Word32(d, at, x)
  {
    WordBytes(d, at, x);
  }

  lemma ReadLong(d: seq<byte>, at: nat, x: nat)
    requires at + 8 <= |d| && U64(d, at) == x
    ensures Word64(d, at, x)
  {
    LongWordBytes(d, at, x);
  }

  lemma PackedBytes(xs: seq<u32>)
    ensures Words32(Pack(4, xs), xs)
  {
    var b := Pack(4, xs);
    assert Holds(b, 0, Pack(4, xs));
    forall k: nat | k < |xs| ensures Word32(b, k * 4, xs[k]) {
      PackedU32(b, 0, xs, k);
      ReadWord(b, k * 4, xs[k]);
    }
  }

  lemma PackedLongs(xs: seq<u64>)
    ensures Words64(Pack(8, xs), xs)
  {
    var b := Pack(8, xs);
    assert Holds(b, 0, Pack(8, xs));
    forall k: nat | k < |xs| ensures Word64(b, k * 8, xs[k]) {
      PackedU64(b, 0, xs, k);
      ReadLong(b, k * 8, xs[k]);
    }
  }

  // ---- what is written ----

  lemma HeaderBytes(crc: Checksum, m: Map)
    requires Geometry(m)
    ensures HoldsHeader(m, Write(crc, m))
  {
    var d := Write(crc, m);
    HeaderAccepted(crc, m);
    HeaderWords(d, m);
  }

  lemma HeaderWords(d: seq<byte>, m: Map)
    requires |d| >= 280 && Geometry(m) && CountsOf(d) == CountsFor(m) && U32(d, 8) == 1 && U32(d, 12) <= 1
    requires d[..8] == [0x49, 0x50, 0x4D, 0x41, 0x50, 0x44, 0x42, 0x00]
    ensures HoldsHeader(m, d)
  {
    FormatWords(d, m);
    CountWords(d, m);
  }

  lemma FormatWords(d: seq<byte>, m: Map)
    requires |d| >= 280 && Geometry(m) && CountsOf(d) == CountsFor(m) && U32(d, 8) == 1 && U32(d, 12) <= 1
    requires d[..8] == [0x49, 0x50, 0x4D, 0x41, 0x50, 0x44, 0x42, 0x00]
    ensures HoldsFormat(m, d)
  {
    var s := m.stats;
    ReadWord(d, 8, 1);
    ReadWord(d, 12, if s.distinct > 0 then 1 else 0);
    ReadWord(d, 16, m.valLen);
    ReadWord(d, 20, if s.distinct > 0 then IdWidth(s.distinct) else 0);
  }

  lemma CountWords(d: seq<byte>, m: Map)
    requires |d| >= 280 && CountsOf(d) == CountsFor(m)
    ensures HoldsCounts(m, d)
  {
    var s := m.stats;
    ReadLong(d, 24, Unsigned(m.epoch));
    ReadLong(d, 32, s.addrs4);
    ReadLong(d, 40, s.addrs6);
    ReadLong(d, 48, |m.s6.prefix|);
    ReadLong(d, 56, s.distinct);
    ReadLong(d, 64, s.dups);
    ReadLong(d, 72, s.dupConflicts);
  }

  lemma SumBytes(crc: Checksum, m: Map)
    requires Geometry(m)
    ensures HoldsSum(crc, Write(crc, m))
  {
    var d := Write(crc, m);
    HeaderAccepted(crc, m);
    ReadWord(d, 272, crc(d[..272]));
    ReadWord(d, 276, 0);
  }

  lemma SectionHeld(m: Map, i: nat)
    requires Geometry(m) && i < 8
    ensures HoldsSection(m, i, Sections(m)[i])
  {
    SectionsOf(m);
    var secs := Sections(m);
    if i < 3 {
      assert secs[i] == secs[..3][i];
      Section4Held(m, i);
    } else if i < 7 {
      assert secs[i] == secs[3..7][i - 3];
      Section6Held(m, i);
    } else if m.stats.distinct > 0 {
      TabSize(m);
    }
  }

  lemma Section4Held(m: Map, i: nat)
    requires Geometry(m) && i < 3
    ensures HoldsSection(m, i, Sections4(m)[i])
  {
    if m.stats.addrs4 > 0 {
      PackedBytes(m.s4.idx);
      PayloadSize(m.s4.vals, m.stats.addrs4, m.valLen, m.stats.distinct);
    }
  }

  lemma Section6Held(m: Map, i: nat)
    requires Geometry(m) && 3 <= i < 7
    ensures HoldsSection(m, i, Sections6(m)[i - 3])
  {
    if m.stats.addrs6 > 0 {
      PackedLongs(m.s6.prefix);
      PackedBytes(m.s6.pidx);
      PackedLongs(m.s6.suffix);
      PayloadSize(m.s6.vals, m.stats.addrs6, m.valLen, m.stats.distinct);
      assert m.s6.pidx[..|m.s6.prefix| + 1] == m.s6.pidx;
    }
  }

  /** The row's words, and the section with its padding. */
  lemma PlacedWords(d: seq<byte>, i: nat, off: nat, len: nat, sum: u32)
    requires 104 + i * 24 <= |d| && Placed(d, 80 + i * 24, off, len)
    requires U32(d, 96 + i * 24) == sum && U32(d, 100 + i * 24) == 0
    ensures Word64(d, 80 + i * 24, off) && Word64(d, 88 + i * 24, len) && Word32(d, 96 + i * 24, sum)
    ensures Word32(d, 100 + i * 24, 0)
  {
    ReadLong(d, 80 + i * 24, off);
    ReadLong(d, 88 + i * 24, len);
    ReadWord(d, 96 + i * 24, sum);
    ReadWord(d, 100 + i * 24, 0);
  }

  lemma RowHeld(crc: Checksum, d: seq<byte>, lens: seq<nat>, i: nat, s: seq<byte>)
    requires |d| >= HEADER && |lens| == SECTIONS && i < |lens| && lens[i] == |s| && AcceptedAt(crc, d, lens, i, s)
    requires U32(d, 100 + i * 24) == 0
    ensures HoldsRow(crc, d, i, OffsetAt(lens, i), s, OffsetAt(lens, i + 1))
  {
    PlacedWords(d, i, OffsetAt(lens, i), |s|, crc(s));
  }

  lemma EachRow(crc: Checksum, d: seq<byte>, lens: seq<nat>, secs: seq<seq<byte>>, i: nat)
    requires FixedOk(crc, d) && |secs| == SECTIONS && lens == Lengths(secs) && AllAccepted(crc, d, lens, secs) && i < 8
    ensures HoldsRow(crc, d, i, OffsetAt(lens, i), secs[i], OffsetAt(lens, i + 1))
  {
    assert AcceptedAt(crc, d, lens, i, secs[i]);
    assert U32(d, 80 + i * 24 + 20) == 0;
    RowHeld(crc, d, lens, i, secs[i]);
  }

  /** Where each section of a Map starts, and where the file ends. */
  ghost function Starts(m: Map): (offs: seq<nat>)
    requires Sliceable(m)
    ensures |offs| == 9 && forall i: nat :: i < 9 ==> offs[i] == OffsetAt(Lengths(Sections(m)), i)
  {
    seq(9, i requires 0 <= i < 9 => OffsetAt(Lengths(Sections(m)), i))
  }

  lemma BodyOf(crc: Checksum, m: Map, d: seq<byte>, offs: seq<nat>, lens: seq<nat>, secs: seq<seq<byte>>)
    requires FixedOk(crc, d) && |secs| == SECTIONS && lens == Lengths(secs) && AllAccepted(crc, d, lens, secs)
    requires OffsetAt(lens, SECTIONS) == |d| && forall i: nat :: i < 8 ==> HoldsSection(m, i, secs[i])
    requires |offs| == 9 && forall i: nat :: i < 9 ==> offs[i] == OffsetAt(lens, i)
    ensures HoldsBody(crc, m, d, offs, secs)
  {
    forall i: nat | i < 8 ensures HoldsRow(crc, d, i, offs[i], secs[i], offs[i + 1]) {
      EachRow(crc, d, lens, secs, i);
    }
  }

  lemma BodyBytes(crc: Checksum, m: Map)
    requires Geometry(m)
    ensures HoldsBody(crc, m, Write(crc, m), Starts(m), Sections(m))
  {
    HeaderAccepted(crc, m);
    WrittenSections(crc, m);
    forall i: nat | i < 8 ensures HoldsSection(m, i, Sections(m)[i]) {
      SectionHeld(m, i);
    }
    BodyOf(crc, m, Write(crc, m), Starts(m), Lengths(Sections(m)), Sections(m));
  }

  /** The artifact of a Map has the format's bytes. */
  lemma WrittenBytes(crc: Checksum, m: Map) returns (offs: seq<nat>, secs: seq<seq<byte>>)
    requires Geometry(m)
    ensures HoldsHeader(m, Write(crc, m)) && HoldsSum(crc, Write(crc, m))
    ensures HoldsBody(crc, m, Write(crc, m), offs, secs)
  {
    HeaderBytes(crc, m);
    SumBytes(crc, m);
    BodyBytes(crc, m);
    offs, secs := Starts(m), Sections(m);
  }

  /** So has every file that opens, for the Map it opens as. */
  lemma AcceptedBytes(crc: Checksum, d: seq<byte>, m: Map) returns (offs: seq<nat>, secs: seq<seq<byte>>)
    requires Open(crc, d) == Accepted(m)
    ensures HoldsHeader(m, d) && HoldsSum(crc, d) && HoldsBody(crc, m, d, offs, secs)
  {
    ArtifactLaws.AcceptedIsCanonical(crc, d, m);
    offs, secs := WrittenBytes(crc, m);
  }
}
