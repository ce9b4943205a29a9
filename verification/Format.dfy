/** format.go: the artifact's bytes as a function of the Map, and what a reader demands of them. */
module Format {
  import opened Words
  import opened LittleEndian
  import opened Values
  import opened Groups
  import opened Store

  /** "IPMAPDB" and a zero byte. */
  const MAGIC: seq<byte> := [0x49, 0x50, 0x4D, 0x41, 0x50, 0x44, 0x42, 0x00]
  const HEADER: nat := 280
  const SECTIONS: nat := 8

  type Checksum = seq<byte> -> u32

  function Pad8(n: nat): (p: nat)
    ensures n <= p < n + 8 && p % 8 == 0
  {
    (n + 7) / 8 * 8
  }

  // ---- writing ----

  function Interned(m: Map): bool { m.stats.distinct > 0 }

  function IdW(m: Map): nat {
    if Interned(m) then IdWidth(m.stats.distinct) else 0
  }

  function Payload(v: Values): seq<byte> {
    if v.direct != [] then v.direct else v.ids
  }

  /** The shared table: both stores hold the same one, so whichever has it. */
  function TabBytes(m: Map): seq<byte> {
    if m.s4.vals.tab != [] then m.s4.vals.tab else m.s6.vals.tab
  }

  predicate Sliceable(m: Map) {
    m.stats.addrs6 > 0 ==> |m.s6.pidx| > |m.s6.prefix|
  }

  function Sections4(m: Map): (s: seq<seq<byte>>)
    ensures |s| == 3
  {
    if m.stats.addrs4 > 0 then [Pack(4, m.s4.idx), m.s4.suffix, Payload(m.s4.vals)] else [[], [], []]
  }

  function Sections6(m: Map): (s: seq<seq<byte>>)
    requires Sliceable(m)
    ensures |s| == 4
  {
    if m.stats.addrs6 > 0
    then [Pack(8, m.s6.prefix), Pack(4, m.s6.pidx[..|m.s6.prefix| + 1]), Pack(8, m.s6.suffix), Payload(m.s6.vals)]
    else [[], [], [], []]
  }

  /** Each slot's bytes, in slot order. */
  function Sections(m: Map): (s: seq<seq<byte>>)
    requires Sliceable(m)
    ensures |s| == SECTIONS
  {
    Sections4(m) + Sections6(m) + [if Interned(m) then TabBytes(m) else []]
  }

  function Zeros(n: nat): (z: seq<byte>)
    ensures |z| == n && forall i :: 0 <= i < n ==> z[i] == 0
  {
    seq(n, _ => 0)
  }

  function Padded(s: seq<byte>): (p: seq<byte>)
    ensures |p| == Pad8(|s|)
  {
    s + Zeros(Pad8(|s|) - |s|)
  }

  /** Every section with its padding. */
  function PaddedAll(secs: seq<seq<byte>>): (p: seq<seq<byte>>)
    ensures |p| == |secs| && forall i :: 0 <= i < |secs| ==> p[i] == Padded(secs[i])
  {
    seq(|secs|, i requires 0 <= i < |secs| => Padded(secs[i]))
  }

  function Lengths(secs: seq<seq<byte>>): (lens: seq<nat>)
    ensures |lens| == |secs| && forall i :: 0 <= i < |secs| ==> lens[i] == |secs[i]|
  {
    seq(|secs|, i requires 0 <= i < |secs| => |secs[i]|)
  }

  /** Where section `i` starts when every section before it is padded. */
  function OffsetAt(lens: seq<nat>, i: nat): (off: nat)
    requires i <= |lens|
    ensures off >= HEADER && off % 8 == 0
  {
    if i == 0 then HEADER else OffsetAt(lens, i - 1) + Pad8(lens[i - 1])
  }

  /** One row of the section table; the offset and length are 64-bit, so higher bits are cut off. */
  function Row(off: nat, len: nat, sum: u32): (r: seq<byte>)
    ensures |r| == 24
  {
    Encode(off, 8) + Encode(len, 8) + Encode(sum, 4) + [0, 0, 0, 0]
  }

  /** The row of section `i`. */
  function RowOfSection(crc: Checksum, secs: seq<seq<byte>>, i: nat): (r: seq<byte>)
    requires i < |secs|
    ensures |r| == 24
  {
    Row(OffsetAt(Lengths(secs), i), |secs[i]|, crc(secs[i]))
  }

  function TableRows(crc: Checksum, secs: seq<seq<byte>>): (rows: seq<seq<byte>>)
    ensures |rows| == |secs| && Uniform(rows, 24)
    ensures forall i: nat :: i < |secs| ==> rows[i] == RowOfSection(crc, secs, i)
  {
    seq(|secs|, i requires 0 <= i < |secs| => RowOfSection(crc, secs, i))
  }

  /** The two's complement of a 64-bit integer. */
  function Unsigned(x: i64): u64 {
    if x < 0 then x + 0x1_0000_0000_0000_0000 else x
  }

  function Signed(x: u64): i64 {
    if x >= 0x8000_0000_0000_0000 then x as int - 0x1_0000_0000_0000_0000 else x
  }

  /** The four 32-bit header fields. */
  function Small(m: Map): (f: seq<nat>)
    ensures |f| == 4
  {
    [1, if Interned(m) then 1 else 0, m.valLen, IdW(m)]
  }

  /** The seven 64-bit header fields. */
  function Large(m: Map): (f: seq<nat>)
    ensures |f| == 7
  {
    [Unsigned(m.epoch), m.stats.addrs4, m.stats.addrs6, |m.s6.prefix|,
     m.stats.distinct, m.stats.dups, m.stats.dupConflicts]
  }

  /** The header up to its checksum. */
  function Head(small: seq<nat>, large: seq<nat>, rows: seq<seq<byte>>): (h: seq<byte>)
    requires |small| == 4 && |large| == 7 && |rows| == SECTIONS && Uniform(rows, 24)
    ensures |h| == 272
  {
    ConcatLength(rows, 24);
    MAGIC + Pack(4, small) + Pack(8, large) + Concat(rows)
  }

  function WithSum(crc: Checksum, head: seq<byte>): (h: seq<byte>)
    ensures |h| == |head| + 8
  {
    head + Pack(4, [crc(head), 0])
  }

  /** A file with these header fields and sections. */
  function File(crc: Checksum, small: seq<nat>, large: seq<nat>, secs: seq<seq<byte>>): (d: seq<byte>)
    requires |small| == 4 && |large| == 7 && |secs| == SECTIONS
    ensures |d| >= HEADER
  {
    WithSum(crc, Head(small, large, TableRows(crc, secs))) + Concat(PaddedAll(secs))
  }

  /** The artifact of a Map. */
  function Write(crc: Checksum, m: Map): (d: seq<byte>)
    requires Sliceable(m)
    ensures |d| >= HEADER
  {
    File(crc, Small(m), Large(m), Sections(m))
  }

  // ---- reading ----

  function U32(d: seq<byte>, at: nat): (x: u32)
    requires at + 4 <= |d|
  {
    Pow256Values();
    Decode(d[at..at + 4])
  }

  function U64(d: seq<byte>, at: nat): (x: u64)
    requires at + 8 <= |d|
  {
    Pow256Values();
    Decode(d[at..at + 8])
  }

  /** The header's counts. */
  datatype Counts = Counts(interned: bool, valLen: nat, idW: nat, epoch: i64,
                           n4: nat, n6: nat, np: nat, distinct: nat, dups: nat, confl: nat)

  function CountsOf(d: seq<byte>): Counts
    requires |d| >= HEADER
  {
    Counts(U32(d, 12) % 2 == 1, U32(d, 16), U32(d, 20), Signed(U64(d, 24)),
           U64(d, 32), U64(d, 40), U64(d, 48), U64(d, 56), U64(d, 64), U64(d, 72))
  }

  predicate CountsOk(c: Counts) {
    && 1 <= c.valLen <= MAX_VAL_LEN
    && c.n4 <= MAX_U32 && c.n6 <= MAX_U32 && c.np <= c.n6 && (c.n6 > 0 ==> c.np > 0)
    && c.dups <= MAX_I64 && c.confl <= c.dups
    && if c.interned then c.idW == IdWidth(c.distinct) && 0 < c.distinct <= MAX_U32 && c.n4 + c.n6 > 0
       else c.idW == 0 && c.distinct == 0
  }

  function PerVal(c: Counts): nat {
    if c.interned then c.idW else c.valLen
  }

  function Expected4(c: Counts): (lens: seq<nat>)
    ensures |lens| == 3
  {
    if c.n4 > 0 then [(GROUPS4 + 1) * 4, c.n4, c.n4 * PerVal(c)] else [0, 0, 0]
  }

  function Expected6(c: Counts): (lens: seq<nat>)
    ensures |lens| == 4
  {
    if c.n6 > 0 then [c.np * 8, (c.np + 1) * 4, c.n6 * 8, c.n6 * PerVal(c)] else [0, 0, 0, 0]
  }

  /** The section lengths the counts demand. */
  function Expected(c: Counts): (lens: seq<nat>)
    ensures |lens| == SECTIONS
  {
    Expected4(c) + Expected6(c) + [if c.interned then c.distinct * c.valLen else 0]
  }

  /** Magic, version, flags, reserved words and the header's own checksum. */
  predicate FixedOk(crc: Checksum, d: seq<byte>) {
    && |d| >= HEADER && d[..8] == MAGIC
    && crc(d[..272]) == U32(d, 272)
    && U32(d, 8) == 1 && U32(d, 12) <= 1
    && (forall i :: 0 <= i < SECTIONS ==> U32(d, 80 + i * 24 + 20) == 0)
    && U32(d, 276) == 0
  }

  /** The row at `at` places a section of `len` bytes at `off`, padding included within the file. */
  predicate Placed(d: seq<byte>, at: nat, off: nat, len: nat)
    requires at + 24 <= |d|
  {
    U64(d, at) == off && U64(d, at + 8) == len && off + Pad8(len) <= |d|
  }

  /** A section's bytes have this checksum and only zeros pad them. */
  predicate Sealed(crc: Checksum, d: seq<byte>, off: nat, len: nat, sum: u32)
    requires off + Pad8(len) <= |d|
  {
    crc(d[off..off + len]) == sum && forall k :: off + len <= k < off + Pad8(len) ==> d[k] == 0
  }

  predicate SectionAt(crc: Checksum, d: seq<byte>, at: nat, off: nat, len: nat)
    requires at + 24 <= |d|
  {
    Placed(d, at, off, len) && Sealed(crc, d, off, len, U32(d, at + 16))
  }

  /** Section `i` is where and as long as the counts say, within the file, checksummed and zero-padded. */
  predicate SectionOk(crc: Checksum, d: seq<byte>, lens: seq<nat>, i: nat)
    requires |d| >= HEADER && |lens| == SECTIONS && i < SECTIONS
  {
    SectionAt(crc, d, 80 + i * 24, OffsetAt(lens, i), lens[i])
  }

  predicate SectionsOk(crc: Checksum, d: seq<byte>, lens: seq<nat>)
    requires |d| >= HEADER && |lens| == SECTIONS
  {
    && (forall i: nat :: i < |lens| ==> SectionOk(crc, d, lens, i))
    && OffsetAt(lens, |lens|) == |d|
  }

  /** Everything about the bytes but what validate checks of the Map they hold. */
  predicate FramingOk(crc: Checksum, d: seq<byte>) {
    FixedOk(crc, d) && CountsOk(CountsOf(d)) && SectionsOk(crc, d, Expected(CountsOf(d)))
  }

  function Section(d: seq<byte>, lens: seq<nat>, i: nat): seq<byte>
    requires i < |lens| && OffsetAt(lens, i) + lens[i] <= |d|
  {
    d[OffsetAt(lens, i)..OffsetAt(lens, i) + lens[i]]
  }

  function View32(b: seq<byte>): (v: seq<u32>)
    ensures v == Unpack(4, b)
  {
    Pow256Values();
    Unpack(4, b)
  }

  function View64(b: seq<byte>): (v: seq<u64>)
    ensures v == Unpack(8, b)
  {
    Pow256Values();
    Unpack(8, b)
  }

  function ValuesOver(c: Counts, sec: seq<byte>, tab: seq<byte>): Values {
    if c.interned then Values(c.valLen, [], tab, sec, c.idW) else Values(c.valLen, sec, [], [], 0)
  }

  /** The Map over the sections of a file. */
  function ViewOf(c: Counts, secs: seq<seq<byte>>): Map
    requires |secs| == SECTIONS
  {
    Map(if c.n4 > 0 then Store4(View32(secs[0]), secs[1], ValuesOver(c, secs[2], secs[7])) else EMPTY4,
        if c.n6 > 0
        then Store6(View64(secs[3]), View32(secs[4]), View64(secs[5]), ValuesOver(c, secs[6], secs[7])) else EMPTY6,
        c.valLen, c.epoch, Stats(c.n4, c.n6, c.dups, c.confl, c.distinct))
  }

  function SectionsIn(d: seq<byte>, lens: seq<nat>): (secs: seq<seq<byte>>)
    requires |lens| == SECTIONS && forall i :: 0 <= i < SECTIONS ==> OffsetAt(lens, i) + lens[i] <= |d|
    ensures |secs| == SECTIONS && forall i :: 0 <= i < SECTIONS ==> secs[i] == Section(d, lens, i)
  {
    seq(SECTIONS, i requires 0 <= i < SECTIONS => Section(d, lens, i))
  }

  lemma FramingFits(crc: Checksum, d: seq<byte>, lens: seq<nat>)
    requires |d| >= HEADER && |lens| == SECTIONS && SectionsOk(crc, d, lens)
    ensures forall i :: 0 <= i < SECTIONS ==> OffsetAt(lens, i) + lens[i] <= |d|
  {
    forall i: nat | i < SECTIONS ensures OffsetAt(lens, i) + lens[i] <= |d| {
      assert SectionOk(crc, d, lens, i);
    }
  }

  function MapIn(crc: Checksum, d: seq<byte>): Map
    requires FramingOk(crc, d)
  {
    var c := CountsOf(d);
    FramingFits(crc, d, Expected(c));
    ViewOf(c, SectionsIn(d, Expected(c)))
  }

  /** validate's verdict on the ids, once both families' groups are in order. */
  ghost function IdsVerdict(m: Map): Verdict {
    var n4, n6 := m.stats.addrs4, m.stats.addrs6;
    if Interned(m) && n4 > 0 && !IdsBelow(m.s4.vals, n4, m.stats.distinct) then Bad
    else if Interned(m) && n6 > 0 && !IdsBelow(m.s6.vals, n6, m.stats.distinct) then Bad
    else Good
  }

  /** validate's verdict. */
  ghost function MapVerdict(m: Map): Verdict {
    var n4, n6 := m.stats.addrs4, m.stats.addrs6;
    if n4 > 0 && GroupsVerdict(m.s4.idx, m.s4.suffix, n4, 0) != Good then
      GroupsVerdict(m.s4.idx, m.s4.suffix, n4, 0)
    else if n6 > 0 && !StrictlyAscending(m.s6.prefix) then Bad
    else if n6 > 0 && GroupsVerdict(m.s6.pidx, m.s6.suffix, n6, 1) != Good then
      GroupsVerdict(m.s6.pidx, m.s6.suffix, n6, 1)
    else IdsVerdict(m)
  }

  datatype OpenResult = Accepted(m: Map) | Rejected | Panicked

  /** openBytes: what becomes of a byte string. */
  ghost function Open(crc: Checksum, d: seq<byte>): OpenResult {
    if !FramingOk(crc, d) then Rejected
    else
      match MapVerdict(MapIn(crc, d))
      case Good => Accepted(MapIn(crc, d))
      case Bad => Rejected
      case Panic => Panicked
  }
}
