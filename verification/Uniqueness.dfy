/** How many files one content has: exactly what two accepted files that answer alike can differ in. */
module Uniqueness {
  import opened Words
  import opened LittleEndian
  import opened Addr
  import opened Groups
  import opened Values
  import opened Store
  import opened Format
  import opened Framing
  import opened ArtifactLaws
  import opened Entries

  /** No caller can tell the Maps apart: equal counts, width, epoch and answers at every address. */
  ghost predicate SameToCallers(m: Map, m': Map) {
    forall addr: Address :: Indistinct(m, m', addr)
  }

  /** They agree on the 4-in-6 keys, which no lookup reaches. */
  ghost predicate SameHidden(m: Map, m': Map) {
    forall a: Addr6 :: Mapped(a) ==> Answer(m, Key6(a)) == Answer(m', Key6(a))
  }

  /** They number their values alike: the same table and the same id for each entry. */
  ghost predicate SameIds(m: Map, m': Map) {
    TabBytes(m) == TabBytes(m') && m.s4.vals.ids == m'.s4.vals.ids && m.s6.vals.ids == m'.s6.vals.ids
  }

  // ---- equal answers at addresses are equal answers for keys ----

  lemma SameAnswer(m: Map, m': Map, k: Key)
    requires SameToCallers(m, m') && SameHidden(m, m')
    ensures Answer(m, k) == Answer(m', k)
  {
    AddressHasKey(k);
    assert Indistinct(m, m', AddressOf(k));
  }

  /** Scans that answer alike run over the same addresses with the same values. */
  lemma SameScans(a: seq<nat>, b: seq<nat>, v: Values, w: Values)
    requires StrictlyAscending(a) && StrictlyAscending(b)
    requires forall j: nat :: j < |a| ==> Readable(v, j)
    requires forall j: nat :: j < |b| ==> Readable(w, j)
    requires forall x :: x in a || x in b ==> Scan(a, v, x) == Scan(b, w, x)
    ensures a == b && forall j: nat :: j < |a| ==> Get(v, j) == Get(w, j)
  {
    forall x ensures x in a <==> x in b {
      ScanFinds(a, v, x);
      ScanFinds(b, w, x);
    }
    AscendingSameElements(a, b);
    forall j: nat | j < |a| ensures Get(v, j) == Get(w, j) {
      ScanAt(a, v, j);
      ScanAt(b, w, j);
    }
  }

  lemma ScanFinds(a: seq<nat>, v: Values, x: nat)
    requires forall j: nat :: j < |a| ==> Readable(v, j)
    ensures Scan(a, v, x).Some? <==> x in a
  {
  }

  lemma SameAddresses4(m: Map, m': Map)
    requires Valid(m) && Valid(m') && SameToCallers(m, m') && SameHidden(m, m')
    ensures Addresses4(m.s4) == Addresses4(m'.s4)
    ensures forall j: nat :: j < m.stats.addrs4 ==> Readable(m.s4.vals, j) && Readable(m'.s4.vals, j)
                                                    && Get(m.s4.vals, j) == Get(m'.s4.vals, j)
  {
    assert Indistinct(m, m', Invalid);
    var a, b := Addresses4(m.s4), Addresses4(m'.s4);
    StoredAscend(m);
    StoredAscend(m');
    forall j: nat | j < m.stats.addrs4 ensures Readable(m.s4.vals, j) && Readable(m'.s4.vals, j) {
      Entry4Readable(m, j);
      Entry4Readable(m', j);
    }
    forall x | x in a || x in b ensures Scan(a, m.s4.vals, x) == Scan(b, m'.s4.vals, x) {
      var ip: u32 := if x in a then Stored4(m, x) else Stored4(m', x);
      SameAnswer(m, m', Key4(ip));
    }
    SameScans(a, b, m.s4.vals, m'.s4.vals);
  }

  ghost function Stored4(m: Map, x: nat): (ip: u32)
    requires Valid(m) && x in Addresses4(m.s4)
    ensures ip == x
  {
    StoredAscend(m);
    var j: nat :| j < |Addresses4(m.s4)| && Addresses4(m.s4)[j] == x;
    Ip4At(m, j)
  }

  lemma SameAddresses6(m: Map, m': Map)
    requires Valid(m) && Valid(m') && SameToCallers(m, m') && SameHidden(m, m')
    ensures Addresses6(m.s6) == Addresses6(m'.s6)
    ensures forall j: nat :: j < m.stats.addrs6 ==> Readable(m.s6.vals, j) && Readable(m'.s6.vals, j)
                                                    && Get(m.s6.vals, j) == Get(m'.s6.vals, j)
  {
    assert Indistinct(m, m', Invalid);
    var a, b := Addresses6(m.s6), Addresses6(m'.s6);
    StoredAscend(m);
    StoredAscend(m');
    forall j: nat | j < m.stats.addrs6 ensures Readable(m.s6.vals, j) && Readable(m'.s6.vals, j) {
      Entry6Readable(m, j);
      Entry6Readable(m', j);
    }
    forall x | x in a || x in b ensures Scan(a, m.s6.vals, x) == Scan(b, m'.s6.vals, x) {
      var k := if x in a then Stored6(m, x) else Stored6(m', x);
      SameAnswer(m, m', Key6(k));
    }
    SameScans(a, b, m.s6.vals, m'.s6.vals);
  }

  ghost function Stored6(m: Map, x: nat): (a: Addr6)
    requires Valid(m) && x in Addresses6(m.s6)
    ensures Num(a) == x
  {
    StoredAscend(m);
    var j: nat :| j < |Addresses6(m.s6)| && Addresses6(m.s6)[j] == x;
    Addr6At(m, j)
  }

  // ---- the addresses determine the index ----

  lemma GroupOfBounds(idx: seq<nat>, j: nat, g: nat)
    requires Rising(idx) && g < |idx| && idx[0] <= j < idx[|idx| - 1]
    ensures idx[g] <= j <==> g <= GroupOf(idx, j, |idx| - 1)
  {
    var h := GroupOf(idx, j, |idx| - 1);
    if g <= h {
      RisingLe(idx, g, h);
    } else {
      RisingLe(idx, h + 1, g);
    }
  }

  ghost predicate SameGroupAt(idx: seq<nat>, idx': seq<nat>, n: nat, j: nat)
    requires |idx| == |idx'| && Spans(idx, n) && Spans(idx', n) && j < n
  {
    GroupOf(idx, j, |idx| - 1) == GroupOf(idx', j, |idx| - 1)
  }

  /** Offsets that put every entry in the same group are the same. */
  lemma SameOffsets(idx: seq<nat>, idx': seq<nat>, n: nat)
    requires |idx| == |idx'| && Rising(idx) && Rising(idx') && Spans(idx, n) && Spans(idx', n)
    requires forall j: nat :: j < n ==> SameGroupAt(idx, idx', n, j)
    ensures idx == idx'
  {
    forall g | 0 <= g < |idx| ensures idx[g] == idx'[g] {
      RisingLe(idx, g, |idx| - 1);
      RisingLe(idx', g, |idx| - 1);
      var low := if idx[g] <= idx'[g] then idx[g] else idx'[g];
      if low < n {
        assert SameGroupAt(idx, idx', n, low);
        GroupOfBounds(idx, low, g);
        GroupOfBounds(idx', low, g);
      }
    }
  }

  /** Equal addresses over the same group keys have equal suffixes and offsets. */
  lemma SameGroups(keys: seq<nat>, idx: seq<u32>, idx': seq<u32>, suffix: seq<nat>, suffix': seq<nat>,
                   radix: nat, minGroup: nat)
    requires |idx| == |idx'| == |keys| + 1 && |suffix| == |suffix'| && StrictlyAscending(keys)
    requires GroupsOk(idx, suffix, |suffix|, minGroup) && GroupsOk(idx', suffix', |suffix|, minGroup)
    requires forall j :: 0 <= j < |suffix| ==> suffix[j] < radix
    requires forall j :: 0 <= j < |suffix| ==> suffix'[j] < radix
    requires Spans(idx, |suffix|) && Spans(idx', |suffix|)
    requires Addresses(keys, idx, suffix, radix) == Addresses(keys, idx', suffix', radix)
    ensures suffix == suffix' && idx == idx'
  {
    OkIsRising(idx, suffix, |suffix|, minGroup);
    OkIsRising(idx', suffix', |suffix|, minGroup);
    var top := |idx| - 1;
    forall j: nat | j < |suffix| ensures suffix[j] == suffix'[j] && SameGroupAt(idx, idx', |suffix|, j) {
      assert AddressAt(keys, idx, suffix, radix, j) == Addresses(keys, idx, suffix, radix)[j];
      assert AddressAt(keys, idx', suffix', radix, j) == Addresses(keys, idx', suffix', radix)[j];
      var g, h := GroupOf(idx, j, top), GroupOf(idx', j, top);
      SameAddress(keys[g], suffix[j], keys[h], suffix'[j], radix);
      AscendingUnique(keys, g, h);
    }
    SameOffsets(idx, idx', |suffix|);
  }

  /** Every prefix is the high word of some stored address. */
  lemma PrefixStored(s: Store6, n: nat, valLen: nat, distinct: nat, g: nat)
    requires Valid6(s, n, valLen, distinct) && n > 0 && g < |s.prefix|
    ensures exists j :: 0 <= j < |Addresses6(s)| && Addresses6(s)[j] / 0x1_0000_0000_0000_0000 == s.prefix[g]
  {
    OkIsRising(s.pidx, s.suffix, n, 1);
    assert GroupOk(s.pidx, s.suffix, 1, g + 1);
    var j: nat := s.pidx[g];
    RisingLe(s.pidx, g + 1, |s.pidx| - 1);
    GroupUnique(s.pidx, j, |s.pidx| - 1, g);
    assert Addresses6(s)[j] == AddressAt(s.prefix, s.pidx, s.suffix, 0x1_0000_0000_0000_0000, j);
    LessIsNumeric(Addr6(s.prefix[g], s.suffix[j]), Addr6(s.prefix[g], s.suffix[j]));
  }

  /** Every stored address has its high word among the prefixes. */
  lemma StoredPrefix(s: Store6, n: nat, valLen: nat, distinct: nat, j: nat)
    requires Valid6(s, n, valLen, distinct) && n > 0 && j < |Addresses6(s)|
    ensures Addresses6(s)[j] / 0x1_0000_0000_0000_0000 in s.prefix
  {
    assert Addresses6(s)[j] == AddressAt(s.prefix, s.pidx, s.suffix, 0x1_0000_0000_0000_0000, j);
    var g := GroupOf(s.pidx, j, |s.pidx| - 1);
    LessIsNumeric(Addr6(s.prefix[g], s.suffix[j]), Addr6(s.prefix[g], s.suffix[j]));
  }

  lemma PrefixWithin(s: Store6, t: Store6, n: nat, valLen: nat, distinct: nat, x: u64)
    requires Valid6(s, n, valLen, distinct) && Valid6(t, n, valLen, distinct) && n > 0
    requires Addresses6(s) == Addresses6(t) && x in s.prefix
    ensures x in t.prefix
  {
    var g :| 0 <= g < |s.prefix| && s.prefix[g] == x;
    PrefixStored(s, n, valLen, distinct, g);
    var j :| 0 <= j < |Addresses6(s)| && Addresses6(s)[j] / 0x1_0000_0000_0000_0000 == x;
    StoredPrefix(t, n, valLen, distinct, j);
  }

  lemma SamePrefix(s: Store6, t: Store6, n: nat, valLen: nat, distinct: nat)
    requires Valid6(s, n, valLen, distinct) && Valid6(t, n, valLen, distinct) && n > 0
    requires Addresses6(s) == Addresses6(t)
    ensures s.prefix == t.prefix
  {
    forall x ensures x in s.prefix <==> x in t.prefix {
      if x in s.prefix {
        PrefixWithin(s, t, n, valLen, distinct, x);
      }
      if x in t.prefix {
        PrefixWithin(t, s, n, valLen, distinct, x);
      }
    }
    AscendingSameElements(s.prefix, t.prefix);
  }

  // ---- the answers and the numbering determine the values ----

  lemma SameDirect(b: seq<byte>, c: seq<byte>, w: nat, n: nat)
    requires |b| == n * w && |c| == n * w
    requires forall i: nat :: i < n ==> SlotIs(c, w, i, SlotOf(b, w, n, i))
    ensures b == c
  {
    var rows := seq(n, i requires 0 <= i < n => SlotOf(b, w, n, i));
    forall i: nat | i < |rows| ensures SlotIs(b, w, i, rows[i]) && SlotIs(c, w, i, rows[i]) {
      MulMono(i + 1, n, w);
    }
    SlotsDetermine(b, rows, w);
    SlotsDetermine(c, rows, w);
  }

  ghost function SlotOf(b: seq<byte>, w: nat, n: nat, i: nat): seq<byte>
    requires |b| == n * w && i < n
  {
    MulMono(i + 1, n, w);
    Slot(b, w, i)
  }

  lemma SameValues(v: Values, w: Values, n: nat, valLen: nat, distinct: nat)
    requires ValuesOk(v, n, valLen, distinct) && ValuesOk(w, n, valLen, distinct) && n > 0
    requires forall j: nat :: j < n ==> Readable(v, j) && Readable(w, j) && Get(v, j) == Get(w, j)
    requires distinct > 0 ==> v.tab == w.tab && v.ids == w.ids
    ensures v == w
  {
    if distinct == 0 {
      MulMono(1, n, valLen);
      forall i: nat | i < n ensures SlotIs(w.direct, valLen, i, SlotOf(v.direct, valLen, n, i)) {
        assert Get(v, i) == Get(w, i);
        MulMono(i + 1, n, valLen);
      }
      SameDirect(v.direct, w.direct, valLen, n);
    }
  }

  // ---- the stores ----

  lemma SameStore4(m: Map, m': Map)
    requires Geometry(m) && Geometry(m') && Valid(m) && Valid(m') && m.stats.addrs4 > 0
    requires SameToCallers(m, m') && SameHidden(m, m') && (Interned(m) ==> SameIds(m, m'))
    ensures m.s4 == m'.s4
  {
    assert Indistinct(m, m', Invalid);
    SameAddresses4(m, m');
    SameGroups(Identity(GROUPS4), m.s4.idx, m'.s4.idx, m.s4.suffix, m'.s4.suffix, 0x100, 0);
    if Interned(m) {
      TabSize(m);
      TabSize(m');
    }
    SameValues(m.s4.vals, m'.s4.vals, m.stats.addrs4, m.valLen, m.stats.distinct);
  }

  lemma SameStore6(m: Map, m': Map)
    requires Geometry(m) && Geometry(m') && Valid(m) && Valid(m') && m.stats.addrs6 > 0
    requires SameToCallers(m, m') && SameHidden(m, m') && (Interned(m) ==> SameIds(m, m'))
    ensures m.s6 == m'.s6
  {
    assert Indistinct(m, m', Invalid);
    SameAddresses6(m, m');
    SamePrefix(m.s6, m'.s6, m.stats.addrs6, m.valLen, m.stats.distinct);
    SameGroups(m.s6.prefix, m.s6.pidx, m'.s6.pidx, m.s6.suffix, m'.s6.suffix, 0x1_0000_0000_0000_0000, 1);
    if Interned(m) {
      TabSize(m);
      TabSize(m');
    }
    SameValues(m.s6.vals, m'.s6.vals, m.stats.addrs6, m.valLen, m.stats.distinct);
  }

  lemma SameMaps(m: Map, m': Map)
    requires Geometry(m) && Geometry(m') && Valid(m) && Valid(m') && Reopened(m) == m && Reopened(m') == m'
    requires SameToCallers(m, m') && SameHidden(m, m') && (Interned(m) ==> SameIds(m, m'))
    ensures m == m'
  {
    assert Indistinct(m, m', Invalid);
    if m.stats.addrs4 > 0 {
      SameStore4(m, m');
    }
    if m.stats.addrs6 > 0 {
      SameStore6(m, m');
    }
  }

  /**
   * Two accepted files that no caller can tell apart are the same file exactly when they also agree on the 4-in-6
   * keys they store and, in interned mode, on the table and on the id of each entry.
   */
  lemma SameAcceptedFileExactly(crc: Checksum, d: seq<byte>, d': seq<byte>, m: Map, m': Map)
    requires Open(crc, d) == Accepted(m) && Open(crc, d') == Accepted(m') && SameToCallers(m, m')
    ensures d == d' <==> SameHidden(m, m') && (Interned(m) ==> SameIds(m, m'))
  {
    AcceptedIsCanonical(crc, d, m);
    AcceptedIsCanonical(crc, d', m');
    if SameHidden(m, m') && (Interned(m) ==> SameIds(m, m')) {
      SameMaps(m, m');
    }
  }

  /** No entry lies under a 4-in-6 key; so it is with every built Map. */
  ghost predicate NoHidden(m: Map)
    requires Valid(m)
  {
    forall i: nat :: i < m.stats.addrs6 ==> !Mapped(Addr6At(m, i))
  }

  lemma NoHiddenMisses(m: Map, a: Addr6)
    requires Valid(m) && NoHidden(m) && Mapped(a)
    ensures Answer(m, Key6(a)) == None
  {
    StoredAscend(m);
    var r := Find(Addresses6(m.s6), Num(a));
    if r.Some? {
      LessIsNumeric(Addr6At(m, r.value), a);
    }
  }

  /** Every entry of a Map without hidden ones is stored in any Map that answers alike. */
  lemma StoredInBoth(m: Map, m': Map, i: nat)
    requires Valid(m) && Valid(m') && NoHidden(m) && SameToCallers(m, m') && i < m.stats.addrs6
    ensures Addresses6(m.s6)[i] in Addresses6(m'.s6)
  {
    var k := Key6(Addr6At(m, i));
    Entry6Answers(m, i);
    AddressHasKey(k);
    assert Indistinct(m, m', AddressOf(k));
  }

  /** Answering alike leaves no room for a hidden entry: the counts are used up by the entries that are reached. */
  lemma NoHiddenInBoth(m: Map, m': Map)
    requires Valid(m) && Valid(m') && NoHidden(m) && SameToCallers(m, m')
    ensures NoHidden(m')
  {
    assert Indistinct(m, m', Invalid);
    var a, b := Addresses6(m.s6), Addresses6(m'.s6);
    StoredAscend(m);
    StoredAscend(m');
    forall x | x in a ensures x in b {
      var i: nat :| i < |a| && a[i] == x;
      StoredInBoth(m, m', i);
    }
    AscendingWithin(a, b);
    forall i: nat | i < m'.stats.addrs6 ensures !Mapped(Addr6At(m', i)) {
      LessIsNumeric(Addr6At(m, i), Addr6At(m', i));
    }
  }

  lemma NothingHidden(m: Map, m': Map)
    requires Valid(m) && Valid(m') && NoHidden(m) && SameToCallers(m, m')
    ensures SameHidden(m, m')
  {
    NoHiddenInBoth(m, m');
    forall a: Addr6 | Mapped(a) ensures Answer(m, Key6(a)) == Answer(m', Key6(a)) {
      NoHiddenMisses(m, a);
      NoHiddenMisses(m', a);
    }
  }

  /** Over a one-row table every id is zero. */
  lemma OneRowIds(v: Values, w: Values, n: nat, valLen: nat)
    requires ValuesOk(v, n, valLen, 1) && ValuesOk(w, n, valLen, 1)
    ensures v.ids == w.ids
  {
    forall i: nat | i < n ensures SameWordAt(v.ids, w.ids, v.idW, i) {
    }
    SameWords(v.ids, w.ids, v.idW, n);
  }

  /** And the row is any entry's value. */
  lemma OneRowTable(v: Values, w: Values, n: nat, valLen: nat)
    requires ValuesOk(v, n, valLen, 1) && ValuesOk(w, n, valLen, 1) && n > 0
    requires Readable(v, 0) && Readable(w, 0) && Get(v, 0) == Get(w, 0)
    ensures v.tab == w.tab
  {
    assert Get(v, 0) == v.tab[..valLen] == v.tab;
    assert Get(w, 0) == w.tab[..valLen] == w.tab;
  }

  lemma OneRowSameIds(m: Map, m': Map)
    requires Geometry(m) && Geometry(m') && Valid(m) && Valid(m') && Reopened(m) == m && Reopened(m') == m'
    requires SameToCallers(m, m') && SameHidden(m, m') && m.stats.distinct == 1
    ensures SameIds(m, m')
  {
    assert Indistinct(m, m', Invalid);
    TabSize(m);
    TabSize(m');
    if m.stats.addrs6 > 0 {
      SameAddresses6(m, m');
      OneRowIds(m.s6.vals, m'.s6.vals, m.stats.addrs6, m.valLen);
      OneRowTable(m.s6.vals, m'.s6.vals, m.stats.addrs6, m.valLen);
    }
    if m.stats.addrs4 > 0 {
      SameAddresses4(m, m');
      OneRowIds(m.s4.vals, m'.s4.vals, m.stats.addrs4, m.valLen);
      OneRowTable(m.s4.vals, m'.s4.vals, m.stats.addrs4, m.valLen);
    }
  }

  /** No other accepted file has this content. */
  ghost predicate OnlyFile(crc: Checksum, d: seq<byte>, m: Map) {
    forall d', m' :: Open(crc, d') == Accepted(m') && SameToCallers(m, m') ==> d' == d
  }

  /** Without hidden entries and with at most one distinct value in the table, the file is the only one. */
  lemma OneFileWithoutHidden(crc: Checksum, d: seq<byte>, m: Map)
    requires Open(crc, d) == Accepted(m)
    requires Valid(m) && NoHidden(m) && m.stats.distinct <= 1
    ensures OnlyFile(crc, d, m)
  {
    forall d', m' | Open(crc, d') == Accepted(m') && SameToCallers(m, m') ensures d' == d {
      AcceptedIsCanonical(crc, d, m);
      AcceptedIsCanonical(crc, d', m');
      NothingHidden(m, m');
      if Interned(m) {
        OneRowSameIds(m, m');
      }
      SameAcceptedFileExactly(crc, d, d', m, m');
    }
  }

  /** Another sound Map that answers alike has another file. */
  lemma RivalFile(crc: Checksum, d: seq<byte>, m: Map, m': Map)
    requires Open(crc, d) == Accepted(m) && SameToCallers(m, m') && m' != m
    requires Geometry(m') && Valid(m') && Reopened(m') == m'
    ensures !OnlyFile(crc, d, m)
  {
    AcceptedIsCanonical(crc, d, m);
    OpenWrite(crc, m');
    ValidateIsExact(m');
    WriteIsInjective(crc, m, m');
    assert Open(crc, Write(crc, m')) == Accepted(m');
  }

  // ---- a pair of files for one content ----

  /** A direct-mode Map whose only entry is ::ffff:1.2.3.4, with the one-byte value `v`. */
  ghost predicate HiddenOnly(m: Map, v: byte) {
    && m.s4 == EMPTY4 && m.valLen == 1 && m.epoch == 0 && m.stats == Stats(0, 1, 0, 0, 0)
    && m.s6.prefix == [0] && m.s6.pidx == [0, 1] && m.s6.suffix == [0xFFFF_0102_0304]
    && m.s6.vals == Values(1, [v], [], [], 0)
  }

  lemma HiddenOnlyExists(v: byte) returns (m: Map)
    ensures HiddenOnly(m, v)
  {
    m := Map(EMPTY4, Store6([0], [0, 1], [0xFFFF_0102_0304], Values(1, [v], [], [], 0)), 1, 0, Stats(0, 1, 0, 0, 0));
  }

  lemma HiddenOnlyIsSound(m: Map, v: byte)
    requires HiddenOnly(m, v)
    ensures Geometry(m) && Valid(m) && Reopened(m) == m
  {
    assert GroupOk(m.s6.pidx, m.s6.suffix, 1, 1);
  }

  /** Every lookup on it misses. */
  lemma HiddenOnlyMisses(m: Map, v: byte, addr: Address)
    requires HiddenOnly(m, v)
    ensures Lookup(m, addr) == None
  {
    HiddenOnlyIsSound(m, v);
    StoredAscend(m);
    var a := Addr6At(m, 0);
    LessIsNumeric(a, a);
    match KeyOf(addr)
    case None =>
    case Some(Key4(ip)) =>
    case Some(Key6(k)) =>
      KeyIsStorable(addr);
      assert Mapped(a) && a != k;
      LessIsNumeric(a, k);
      assert Addresses6(m.s6) == [Num(a)];
  }

  lemma HiddenOnlyAccepted(crc: Checksum, m: Map, v: byte)
    requires HiddenOnly(m, v)
    ensures Sliceable(m) && Open(crc, Write(crc, m)) == Accepted(m)
  {
    HiddenOnlyIsSound(m, v);
    OpenWrite(crc, m);
    ValidateIsExact(m);
  }

  lemma HiddenDiffer(crc: Checksum, m: Map, m': Map, v: byte, w: byte)
    requires HiddenOnly(m, v) && HiddenOnly(m', w) && v != w
    ensures Sliceable(m) && Sliceable(m') && Write(crc, m) != Write(crc, m')
  {
    HiddenOnlyIsSound(m, v);
    HiddenOnlyIsSound(m', w);
    assert m.s6.vals.direct[0] != m'.s6.vals.direct[0];
    WriteIsInjective(crc, m, m');
  }

  /** Two accepted direct-mode files that differ, though no caller can tell their Maps apart. */
  ghost predicate TwoFiles(crc: Checksum, d: seq<byte>, d': seq<byte>, m: Map, m': Map) {
    && Open(crc, d) == Accepted(m) && Open(crc, d') == Accepted(m') && d != d'
    && !Interned(m) && SameToCallers(m, m')
  }

  lemma HiddenTwoFiles(crc: Checksum, m: Map, m': Map, v: byte, w: byte)
    requires HiddenOnly(m, v) && HiddenOnly(m', w) && v != w
    ensures Sliceable(m) && Sliceable(m') && TwoFiles(crc, Write(crc, m), Write(crc, m'), m, m')
  {
    HiddenOnlyAccepted(crc, m, v);
    HiddenOnlyAccepted(crc, m', w);
    HiddenDiffer(crc, m, m', v, w);
    forall addr: Address ensures Indistinct(m, m', addr) {
      HiddenOnlyMisses(m, v, addr);
      HiddenOnlyMisses(m', w, addr);
    }
  }

  /** Even in direct mode one content can have two files: entries under 4-in-6 keys are accepted but never answered. */
  lemma OneContentTwoFiles(crc: Checksum)
    ensures exists d, d', m, m' :: TwoFiles(crc, d, d', m, m')
  {
    var m := HiddenOnlyExists(7);
    var m' := HiddenOnlyExists(8);
    HiddenTwoFiles(crc, m, m', 7, 8);
  }
}
