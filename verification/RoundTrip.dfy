/** Writing a well-shaped Map and opening the bytes: every header field, section and padding byte. */
module RoundTrip {
  import opened Words
  import opened LittleEndian
  import opened Values
  import opened Store
  import opened Format
  import opened Framing

  /** Where each piece of the header and the sections are in a file. */
  lemma Pieces(crc: Checksum, small: seq<nat>, large: seq<nat>, secs: seq<seq<byte>>)
    requires |small| == 4 && |large| == 7 && |secs| == SECTIONS
    ensures var d, h := File(crc, small, large, secs), Head(small, large, TableRows(crc, secs));
            && d[..272] == h && d[..8] == MAGIC
            && Holds(d, 272, Pack(4, [crc(h), 0]))
            && Holds(d, 280, Concat(PaddedAll(secs))) && |d| == 280 + |Concat(PaddedAll(secs))|
  {
    var d, h := File(crc, small, large, secs), Head(small, large, TableRows(crc, secs));
    assert h[..8] == MAGIC;
    assert d[..8] == d[..272][..8];
  }

  lemma HeadPieces(small: seq<nat>, large: seq<nat>, rows: seq<seq<byte>>)
    requires |small| == 4 && |large| == 7 && |rows| == SECTIONS && Uniform(rows, 24)
    ensures var h := Head(small, large, rows);
            && Holds(h, 8, Pack(4, small)) && Holds(h, 24, Pack(8, large)) && Holds(h, 80, Concat(rows))
  {
    FourParts(MAGIC, Pack(4, small), Pack(8, large), Concat(rows));
  }

  lemma FilePieces(crc: Checksum, small: seq<nat>, large: seq<nat>, secs: seq<seq<byte>>)
    requires |small| == 4 && |large| == 7 && |secs| == SECTIONS
    ensures var d := File(crc, small, large, secs);
            && Holds(d, 8, Pack(4, small)) && Holds(d, 24, Pack(8, large))
            && Holds(d, 80, Concat(TableRows(crc, secs)))
  {
    var d, rows := File(crc, small, large, secs), TableRows(crc, secs);
    var h := Head(small, large, rows);
    Pieces(crc, small, large, secs);
    HeadPieces(small, large, rows);
    assert Holds(d, 0, h);
    HoldsWithin(d, 0, h, 8, Pack(4, small));
    HoldsWithin(d, 0, h, 24, Pack(8, large));
    HoldsWithin(d, 0, h, 80, Concat(rows));
  }

  // ---- the header words ----

  predicate SaysSmall(d: seq<byte>, f: seq<nat>)
    requires |f| == 4
  {
    |d| >= HEADER && U32(d, 8) == f[0] && U32(d, 12) == f[1] && U32(d, 16) == f[2] && U32(d, 20) == f[3]
  }

  predicate SaysLarge(d: seq<byte>, f: seq<nat>)
    requires |f| == 7
  {
    && |d| >= HEADER
    && U64(d, 24) == f[0] && U64(d, 32) == f[1] && U64(d, 40) == f[2] && U64(d, 48) == f[3]
    && U64(d, 56) == f[4] && U64(d, 64) == f[5] && U64(d, 72) == f[6]
  }

  lemma SmallRead(d: seq<byte>, f: seq<nat>)
    requires |f| == 4 && |d| >= HEADER && Holds(d, 8, Pack(4, f))
    requires forall k :: 0 <= k < 4 ==> f[k] < 0x1_0000_0000
    ensures SaysSmall(d, f)
  {
    PackedU32(d, 8, f, 0);
    PackedU32(d, 8, f, 1);
    PackedU32(d, 8, f, 2);
    PackedU32(d, 8, f, 3);
  }

  lemma LargeRead(d: seq<byte>, f: seq<nat>)
    requires |f| == 7 && |d| >= HEADER && Holds(d, 24, Pack(8, f))
    requires forall k :: 0 <= k < 7 ==> f[k] < 0x1_0000_0000_0000_0000
    ensures SaysLarge(d, f)
  {
    PackedU64(d, 24, f, 0);
    PackedU64(d, 24, f, 1);
    PackedU64(d, 24, f, 2);
    PackedU64(d, 24, f, 3);
    PackedU64(d, 24, f, 4);
    PackedU64(d, 24, f, 5);
    PackedU64(d, 24, f, 6);
  }

  /** The counts are read back as they were. */
  lemma CountsRead(d: seq<byte>, m: Map)
    requires SaysSmall(d, Small(m)) && SaysLarge(d, Large(m))
    ensures CountsOf(d) == CountsFor(m) && U32(d, 8) == 1 && U32(d, 12) <= 1
  {
  }

  // ---- the section table ----

  /** One row of the section table, as it is read. */
  datatype RowWords = RowWords(off: nat, len: nat, sum: nat, pad: nat)

  function RowIn(d: seq<byte>, at: nat): RowWords
    requires at + 24 <= |d|
  {
    RowWords(U64(d, at), U64(d, at + 8), U32(d, at + 16), U32(d, at + 20))
  }

  predicate SaysRow(d: seq<byte>, at: nat, off: nat, len: nat, sum: nat) {
    at + 24 <= |d| && RowIn(d, at) == RowWords(off, len, sum, 0)
  }

  lemma FourParts(a: seq<byte>, b: seq<byte>, c: seq<byte>, e: seq<byte>)
    ensures var r := a + b + c + e;
            Holds(r, 0, a) && Holds(r, |a|, b) && Holds(r, |a| + |b|, c) && Holds(r, |a| + |b| + |c|, e)
  {
  }

  lemma ZeroRead(d: seq<byte>, at: nat)
    requires Holds(d, at, [0, 0, 0, 0])
    ensures U32(d, at) == 0
  {
    Pow256Values();
    ZeroWord();
    DecodeHeld(d, at, 0, 4);
  }

  /** A row is read back. */
  lemma RowRead(d: seq<byte>, at: nat, off: nat, len: nat, sum: u32)
    requires Holds(d, at, Row(off, len, sum)) && off < 0x1_0000_0000_0000_0000 && len < 0x1_0000_0000_0000_0000
    ensures SaysRow(d, at, off, len, sum)
  {
    Pow256Values();
    var r := Row(off, len, sum);
    FourParts(Encode(off, 8), Encode(len, 8), Encode(sum, 4), [0, 0, 0, 0]);
    DecodeWithin(d, at, r, 0, off, 8);
    DecodeWithin(d, at, r, 8, len, 8);
    DecodeWithin(d, at, r, 16, sum, 4);
    HoldsWithin(d, at, r, 20, [0, 0, 0, 0]);
    ZeroRead(d, at + 20);
  }

  lemma SlotHeld(rows: seq<seq<byte>>, i: nat)
    requires Uniform(rows, 24) && i < |rows|
    ensures Holds(Concat(rows), i * 24, rows[i])
  {
    ConcatSlot(rows, 24, i);
  }

  /** A row of the table `b` is read back from its place in the file. */
  lemma TableRead(d: seq<byte>, b: seq<byte>, at: nat, off: nat, len: nat, sum: u32)
    requires Holds(d, 80, b) && Holds(b, at, Row(off, len, sum))
    requires off < 0x1_0000_0000_0000_0000 && len < 0x1_0000_0000_0000_0000
    ensures SaysRow(d, 80 + at, off, len, sum)
  {
    HoldsWithin(d, 80, b, at, Row(off, len, sum));
    RowRead(d, 80 + at, off, len, sum);
  }

  // ---- the sections ----

  /** A padded section stands at its offset. */
  lemma BodyRead(d: seq<byte>, secs: seq<seq<byte>>, i: nat)
    requires Holds(d, 280, Concat(PaddedAll(secs))) && i < |secs|
    ensures Holds(d, OffsetAt(Lengths(secs), i), Padded(secs[i]))
  {
    var p := PaddedAll(secs);
    OffsetIsLength(secs, i);
    ConcatHolds(p, i);
    HoldsWithin(d, 280, Concat(p), |Concat(p[..i])|, p[i]);
  }

  lemma PaddedHeld(d: seq<byte>, off: nat, s: seq<byte>)
    requires Holds(d, off, Padded(s))
    ensures off + Pad8(|s|) <= |d| && d[off..off + |s|] == s
    ensures forall k :: off + |s| <= k < off + Pad8(|s|) ==> d[k] == 0
  {
    var p := Padded(s);
    SubSlice(d, off, off + |p|, 0, |s|);
    forall k | off + |s| <= k < off + |p| ensures d[k] == 0 {
      assert d[k] == d[off..off + |p|][k - off] == p[k - off];
    }
  }

  lemma EndsAtEof(secs: seq<seq<byte>>)
    ensures OffsetAt(Lengths(secs), |secs|) == HEADER + |Concat(PaddedAll(secs))|
  {
    OffsetIsLength(secs, |secs|);
    assert PaddedAll(secs)[..|secs|] == PaddedAll(secs);
  }

  lemma LaidAccepted(crc: Checksum, d: seq<byte>, at: nat, off: nat, s: seq<byte>)
    requires SaysRow(d, at, off, |s|, crc(s)) && Holds(d, off, Padded(s))
    ensures SectionAt(crc, d, at, off, |s|) && d[off..off + |s|] == s
  {
    PaddedHeld(d, off, s);
  }

  // ---- no 64-bit field overflows ----

  const LIMIT: nat := 0x2000_0000_0000

  lemma {:induction false} OffsetsFit(lens: seq<nat>, i: nat)
    requires i <= |lens| <= SECTIONS && forall k :: 0 <= k < |lens| ==> lens[k] <= LIMIT
    ensures OffsetAt(lens, i) <= HEADER + i * (LIMIT + 8)
  {
    if i > 0 {
      OffsetsFit(lens, i - 1);
    }
  }

  lemma OffsetFits64(lens: seq<nat>, i: nat)
    requires i < |lens| <= SECTIONS && forall k :: 0 <= k < |lens| ==> lens[k] <= LIMIT
    ensures OffsetAt(lens, i) < 0x1_0000_0000_0000_0000 && lens[i] < 0x1_0000_0000_0000_0000
  {
    OffsetsFit(lens, i);
  }

  lemma ProductFits(n: nat, w: nat)
    requires n <= MAX_U32 && w <= MAX_VAL_LEN
    ensures n * w <= LIMIT
  {
    MulMono(n, MAX_U32, w);
    assert MAX_U32 * w <= MAX_U32 * MAX_VAL_LEN;
  }

  lemma LengthsFit(c: Counts)
    requires CountsOk(c)
    ensures forall k :: 0 <= k < SECTIONS ==> Expected(c)[k] <= LIMIT
  {
    var perVal := if c.interned then c.idW else c.valLen;
    ProductFits(c.n4, perVal);
    ProductFits(c.n6, perVal);
    ProductFits(if c.interned then c.distinct else 0, c.valLen);
  }

  /** The table says where section `i` is, how long it is and what its checksum is. */
  ghost predicate RowSaid(crc: Checksum, d: seq<byte>, lens: seq<nat>, secs: seq<seq<byte>>, i: nat)
    requires i < |lens| && i < |secs|
  {
    SaysRow(d, 80 + i * 24, OffsetAt(lens, i), |secs[i]|, crc(secs[i]))
  }

  ghost predicate RowsSaid(crc: Checksum, d: seq<byte>, lens: seq<nat>, secs: seq<seq<byte>>) {
    |lens| == |secs| == SECTIONS && forall i: nat :: i < |lens| ==> RowSaid(crc, d, lens, secs, i)
  }

  lemma ReadRowOf(d: seq<byte>, rows: seq<seq<byte>>, i: nat, off: nat, len: nat, sum: u32)
    requires Uniform(rows, 24) && i < |rows| && rows[i] == Row(off, len, sum) && Holds(d, 80, Concat(rows))
    requires off < 0x1_0000_0000_0000_0000 && len < 0x1_0000_0000_0000_0000
    ensures SaysRow(d, 80 + i * 24, off, len, sum)
  {
    SlotHeld(rows, i);
    TableRead(d, Concat(rows), i * 24, off, len, sum);
  }

  lemma TableSaysRow(crc: Checksum, d: seq<byte>, secs: seq<seq<byte>>, i: nat)
    requires i < |secs| && Holds(d, 80, Concat(TableRows(crc, secs)))
    requires OffsetAt(Lengths(secs), i) < 0x1_0000_0000_0000_0000 && |secs[i]| < 0x1_0000_0000_0000_0000
    ensures RowSaid(crc, d, Lengths(secs), secs, i)
  {
    ReadRowOf(d, TableRows(crc, secs), i, OffsetAt(Lengths(secs), i), |secs[i]|, crc(secs[i]));
  }

  /** Every row of the table is read back. */
  lemma TableSaysRows(crc: Checksum, d: seq<byte>, secs: seq<seq<byte>>)
    requires |secs| == SECTIONS && Holds(d, 80, Concat(TableRows(crc, secs)))
    requires forall k :: 0 <= k < SECTIONS ==> Lengths(secs)[k] <= LIMIT
    ensures RowsSaid(crc, d, Lengths(secs), secs)
  {
    forall i: nat | i < |secs| ensures RowSaid(crc, d, Lengths(secs), secs, i) {
      OffsetFits64(Lengths(secs), i);
      TableSaysRow(crc, d, secs, i);
    }
  }

  /** What the reader demands of section `i`, and what it reads there. */
  ghost predicate AcceptedAt(crc: Checksum, d: seq<byte>, lens: seq<nat>, i: nat, s: seq<byte>)
    requires |d| >= HEADER && |lens| == SECTIONS && i < |lens|
  {
    SectionOk(crc, d, lens, i) && OffsetAt(lens, i) + lens[i] <= |d| && Section(d, lens, i) == s
  }

  lemma EachAccepted(crc: Checksum, d: seq<byte>, lens: seq<nat>, i: nat, s: seq<byte>)
    requires |d| >= HEADER && |lens| == SECTIONS && i < |lens| && lens[i] == |s|
    requires SectionAt(crc, d, 80 + i * 24, OffsetAt(lens, i), |s|)
    requires d[OffsetAt(lens, i)..OffsetAt(lens, i) + |s|] == s
    ensures AcceptedAt(crc, d, lens, i, s)
  {
  }

  ghost predicate AllAccepted(crc: Checksum, d: seq<byte>, lens: seq<nat>, secs: seq<seq<byte>>)
    requires |d| >= HEADER && |lens| == |secs| == SECTIONS
  {
    forall i: nat :: i < |lens| ==> AcceptedAt(crc, d, lens, i, secs[i])
  }

  lemma AcceptedRead(crc: Checksum, d: seq<byte>, lens: seq<nat>, secs: seq<seq<byte>>)
    requires |d| >= HEADER && |lens| == |secs| == SECTIONS && AllAccepted(crc, d, lens, secs)
    ensures forall i :: 0 <= i < SECTIONS ==> OffsetAt(lens, i) + lens[i] <= |d|
    ensures SectionsIn(d, lens) == secs
  {
    forall i: nat | i < |lens| ensures OffsetAt(lens, i) + lens[i] <= |d| && Section(d, lens, i) == secs[i] {
      assert AcceptedAt(crc, d, lens, i, secs[i]);
    }
  }

  lemma AcceptedOk(crc: Checksum, d: seq<byte>, lens: seq<nat>, secs: seq<seq<byte>>)
    requires |d| >= HEADER && |lens| == |secs| == SECTIONS && AllAccepted(crc, d, lens, secs)
    requires OffsetAt(lens, |lens|) == |d|
    ensures SectionsOk(crc, d, lens)
  {
    forall i: nat | i < |lens| ensures SectionOk(crc, d, lens, i) {
      assert AcceptedAt(crc, d, lens, i, secs[i]);
    }
  }

  lemma SectionAcceptedAt(crc: Checksum, d: seq<byte>, lens: seq<nat>, secs: seq<seq<byte>>, i: nat)
    requires |d| >= HEADER && |secs| == SECTIONS && lens == Lengths(secs) && i < |lens|
    requires RowSaid(crc, d, lens, secs, i) && Holds(d, 280, Concat(PaddedAll(secs)))
    ensures AcceptedAt(crc, d, lens, i, secs[i])
  {
    BodyRead(d, secs, i);
    LaidAccepted(crc, d, 80 + i * 24, OffsetAt(lens, i), secs[i]);
    EachAccepted(crc, d, lens, i, secs[i]);
  }

  lemma SectionsAcceptedAll(crc: Checksum, d: seq<byte>, lens: seq<nat>, secs: seq<seq<byte>>)
    requires |d| >= HEADER && |secs| == SECTIONS && lens == Lengths(secs) && RowsSaid(crc, d, lens, secs)
    requires Holds(d, 280, Concat(PaddedAll(secs)))
    ensures AllAccepted(crc, d, lens, secs)
  {
    forall i: nat | i < |lens| ensures AcceptedAt(crc, d, lens, i, secs[i]) {
      assert RowSaid(crc, d, lens, secs, i);
      SectionAcceptedAt(crc, d, lens, secs, i);
    }
  }

  /** Everything the reader demands of the sections holds of a file whose table and sections are laid down so. */
  lemma SectionsAccepted(crc: Checksum, d: seq<byte>, lens: seq<nat>, secs: seq<seq<byte>>)
    requires |secs| == SECTIONS && lens == Lengths(secs) && RowsSaid(crc, d, lens, secs)
    requires Holds(d, 280, Concat(PaddedAll(secs))) && |d| == 280 + |Concat(PaddedAll(secs))|
    ensures SectionsOk(crc, d, lens)
    ensures forall i :: 0 <= i < SECTIONS ==> OffsetAt(lens, i) + lens[i] <= |d|
    ensures SectionsIn(d, lens) == secs
  {
    EndsAtEof(secs);
    SectionsAcceptedAll(crc, d, lens, secs);
    AcceptedOk(crc, d, lens, secs);
    AcceptedRead(crc, d, lens, secs);
  }

  lemma ReservedZero(crc: Checksum, d: seq<byte>, lens: seq<nat>, secs: seq<seq<byte>>)
    requires |d| >= HEADER && RowsSaid(crc, d, lens, secs)
    ensures forall i :: 0 <= i < SECTIONS ==> U32(d, 80 + i * 24 + 20) == 0
  {
    forall i: nat | i < SECTIONS ensures U32(d, 80 + i * 24 + 20) == 0 {
      assert RowSaid(crc, d, lens, secs, i);
    }
  }

  /** Magic, version, flags, reserved words and header checksum of a file. */
  lemma FixedAccepted(crc: Checksum, small: seq<nat>, large: seq<nat>, secs: seq<seq<byte>>)
    requires |small| == 4 && |large| == 7 && |secs| == SECTIONS
    requires small[0] == 1 && small[1] <= 1 && SaysSmall(File(crc, small, large, secs), small)
    requires forall k :: 0 <= k < SECTIONS ==> Lengths(secs)[k] <= LIMIT
    ensures FixedOk(crc, File(crc, small, large, secs))
  {
    var d, h := File(crc, small, large, secs), Head(small, large, TableRows(crc, secs));
    Pieces(crc, small, large, secs);
    FilePieces(crc, small, large, secs);
    PackedU32(d, 272, [crc(h), 0], 0);
    PackedU32(d, 272, [crc(h), 0], 1);
    TableSaysRows(crc, d, secs);
    ReservedZero(crc, d, Lengths(secs), secs);
  }

  lemma FieldsFit(m: Map)
    requires Geometry(m)
    ensures forall k :: 0 <= k < 4 ==> Small(m)[k] < 0x1_0000_0000
    ensures forall k :: 0 <= k < 7 ==> Large(m)[k] < 0x1_0000_0000_0000_0000
  {
  }

  lemma FramedBy(crc: Checksum, d: seq<byte>, c: Counts, secs: seq<seq<byte>>)
    requires FixedOk(crc, d) && CountsOf(d) == c && CountsOk(c) && SectionsOk(crc, d, Expected(c))
    requires forall i :: 0 <= i < SECTIONS ==> OffsetAt(Expected(c), i) + Expected(c)[i] <= |d|
    requires SectionsIn(d, Expected(c)) == secs
    ensures FramingOk(crc, d) && MapIn(crc, d) == ViewOf(c, secs)
  {
  }

  lemma HeaderAccepted(crc: Checksum, m: Map)
    requires Geometry(m)
    ensures FixedOk(crc, Write(crc, m)) && CountsOf(Write(crc, m)) == CountsFor(m)
  {
    var small, large, secs := Small(m), Large(m), Sections(m);
    FieldsFit(m);
    CountsAgree(m);
    LengthsFit(CountsFor(m));
    FilePieces(crc, small, large, secs);
    SmallRead(File(crc, small, large, secs), small);
    LargeRead(File(crc, small, large, secs), large);
    CountsRead(File(crc, small, large, secs), m);
    FixedAccepted(crc, small, large, secs);
  }

  /** The sections of what is written are where the table says, to the end of the file. */
  lemma WrittenSections(crc: Checksum, m: Map)
    requires Geometry(m)
    ensures var d, secs := Write(crc, m), Sections(m);
            AllAccepted(crc, d, Lengths(secs), secs) && OffsetAt(Lengths(secs), SECTIONS) == |d|
  {
    var d, secs := Write(crc, m), Sections(m);
    CountsAgree(m);
    LengthsFit(CountsFor(m));
    Pieces(crc, Small(m), Large(m), secs);
    FilePieces(crc, Small(m), Large(m), secs);
    TableSaysRows(crc, d, secs);
    SectionsAcceptedAll(crc, d, Lengths(secs), secs);
    EndsAtEof(secs);
  }

  /** What is written is framed as the reader demands, and holds the Map that was written. */
  lemma WriteIsFramed(crc: Checksum, m: Map)
    requires Geometry(m)
    ensures FramingOk(crc, Write(crc, m)) && MapIn(crc, Write(crc, m)) == Reopened(m)
  {
    var d, secs := Write(crc, m), Sections(m);
    HeaderAccepted(crc, m);
    CountsAgree(m);
    LengthsFit(CountsFor(m));
    Pieces(crc, Small(m), Large(m), secs);
    FilePieces(crc, Small(m), Large(m), secs);
    TableSaysRows(crc, d, secs);
    SectionsAccepted(crc, d, Lengths(secs), secs);
    FramedBy(crc, d, CountsFor(m), secs);
    ViewBack(m);
  }
}
