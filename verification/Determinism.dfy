/** What a build does not depend on: the order of Adds to different addresses, and, for its answers, interning. */
module Determinism {
  import opened Words
  import opened LittleEndian
  import opened Addr
  import opened History
  import opened Groups
  import opened Survivors
  import opened Accounting
  import opened Store
  import opened Layout
  import opened BuildSpec
  import opened Format
  import opened Framing
  import opened ArtifactLaws
  import opened EndToEnd

  // ---- the kept addresses depend on the winners only ----

  lemma KeptKeysAre(log: Log, six: bool, x: nat)
    requires Capped(log)
    ensures x in Keys(KeptOf(log, six)) <==> Numbered(KeysIn(log, six), x)
  {
    KeptNumbers(log, six);
    var a := Keys(KeptOf(log, six));
    if x in a {
      var i :| 0 <= i < |a| && a[i] == x;
      assert Numbered(KeysIn(log, six), a[i]);
    }
  }

  lemma SameKeptKeys(a: Log, b: Log, six: bool)
    requires Capped(a) && Capped(b) && LastWins(a) == LastWins(b)
    ensures Keys(KeptOf(a, six)) == Keys(KeptOf(b, six))
  {
    KeptFacts(a, six);
    KeptFacts(b, six);
    forall x ensures x in Keys(KeptOf(a, six)) <==> x in Keys(KeptOf(b, six)) {
      KeptKeysAre(a, six, x);
      KeptKeysAre(b, six, x);
    }
    AscendingSameElements(Keys(KeptOf(a, six)), Keys(KeptOf(b, six)));
  }

  /** Entry `i` holds the winner of its address in either log. */
  lemma SameKeptValue(a: Log, b: Log, six: bool, i: nat)
    requires Capped(a) && Capped(b) && LastWins(a) == LastWins(b)
    requires Keys(KeptOf(a, six)) == Keys(KeptOf(b, six)) && i < |KeptOf(a, six)|
    ensures var v, w := SeqOf(KeptOf(a, six)[i]), SeqOf(KeptOf(b, six)[i]);
            v < |a| && w < |b| && a[v].val == b[w].val
  {
    assert |Keys(KeptOf(b, six))| == |KeptOf(b, six)|;
    var v, w := KeptOf(a, six)[i], KeptOf(b, six)[i];
    assert Keys(KeptOf(a, six))[i] == AddrOf(v) && Keys(KeptOf(b, six))[i] == AddrOf(w);
    KeptWins(a, six, v);
    KeptWins(b, six, w);
    NumberIsInjective(a[SeqOf(v)].key, b[SeqOf(w)].key);
  }

  // ---- the index structures depend on the addresses only ----

  lemma InitKeys(k: seq<nat>, l: seq<nat>)
    requires Keys(k) == Keys(l) && k != []
    ensures |l| == |k| && Keys(k[..|k| - 1]) == Keys(l[..|l| - 1])
    ensures AddrOf(k[|k| - 1]) == AddrOf(l[|l| - 1])
  {
    assert |Keys(k)| == |k| && |Keys(l)| == |l|;
    assert Keys(k[..|k| - 1]) == Keys(k)[..|k| - 1];
    assert Keys(l[..|l| - 1]) == Keys(l)[..|l| - 1];
    assert Keys(k)[|k| - 1] == Keys(l)[|l| - 1];
  }

  lemma TopOfAddr(w: nat)
    ensures Top(w) == AddrOf(w) / 0x100
  {
  }

  lemma {:induction false} SameBelow(k: seq<nat>, l: seq<nat>, g: nat)
    requires Keys(k) == Keys(l)
    ensures Below(k, g) == Below(l, g)
  {
    if k == [] {
      assert |Keys(l)| == 0;
    } else {
      InitKeys(k, l);
      SameBelow(k[..|k| - 1], l[..|l| - 1], g);
      TopOfAddr(k[|k| - 1]);
      TopOfAddr(l[|l| - 1]);
    }
  }

  lemma SameHigh(v: nat, w: nat)
    requires AddrOf(v) == AddrOf(w)
    ensures High64(v) == High64(w)
  {
  }

  /** The last entries start a run of their high word in both lists or in neither. */
  lemma SameRuns(k: seq<nat>, l: seq<nat>)
    requires Keys(k) == Keys(l) && k != []
    ensures |l| == |k| && (StartsRun(k, |k| - 1) <==> StartsRun(l, |l| - 1))
    ensures High64(k[|k| - 1]) == High64(l[|l| - 1])
  {
    var n := |k| - 1;
    InitKeys(k, l);
    SameHigh(k[n], l[n]);
    if n > 0 {
      InitKeys(k[..n], l[..n]);
      SameHigh(k[n - 1], l[n - 1]);
    }
  }

  lemma {:induction false} SamePrefixes(k: seq<nat>, l: seq<nat>)
    requires Keys(k) == Keys(l)
    ensures Prefixes(k) == Prefixes(l)
  {
    if k == [] {
      assert |Keys(l)| == 0;
    } else {
      InitKeys(k, l);
      SamePrefixes(k[..|k| - 1], l[..|l| - 1]);
      SameRuns(k, l);
    }
  }

  lemma {:induction false} SameStarts(k: seq<nat>, l: seq<nat>)
    requires Keys(k) == Keys(l)
    ensures Starts(k) == Starts(l)
  {
    if k == [] {
      assert |Keys(l)| == 0;
    } else {
      InitKeys(k, l);
      SameStarts(k[..|k| - 1], l[..|l| - 1]);
      SameRuns(k, l);
    }
  }

  lemma SameIndex4(k: seq<nat>, l: seq<nat>)
    requires Keys(k) == Keys(l) && |k| <= MAX_U32
    ensures |l| == |k| && Index4(k) == Index4(l) && Suffix4(k) == Suffix4(l)
  {
    assert |Keys(k)| == |k| && |Keys(l)| == |l|;
    forall g | 0 <= g <= GROUPS4 ensures Index4(k)[g] == Index4(l)[g] {
      SameBelow(k, l, g);
    }
    forall i | 0 <= i < |k| ensures Suffix4(k)[i] == Suffix4(l)[i] {
      assert Keys(k)[i] == Keys(l)[i];
    }
  }

  lemma SameIndex6(k: seq<nat>, l: seq<nat>)
    requires Keys(k) == Keys(l) && |k| <= MAX_U32
    ensures |l| == |k| && Prefixes(k) == Prefixes(l) && Index6(k) == Index6(l) && Suffix6(k) == Suffix6(l)
  {
    assert |Keys(k)| == |k| && |Keys(l)| == |l|;
    SamePrefixes(k, l);
    SameStarts(k, l);
    forall i | 0 <= i < |k| ensures Suffix6(k)[i] == Suffix6(l)[i] {
      assert Keys(k)[i] == Keys(l)[i];
    }
  }

  // ---- the laid-out values depend on the winners, and in interned mode on the table ----

  lemma SameLaidValues(opt: Options, a: Log, b: Log, six: bool)
    requires Capped(a) && Capped(b) && LastWins(a) == LastWins(b) && (opt.intern ==> Table(a) == Table(b))
    requires Recorded(a, KeptOf(a, six)) && Recorded(b, KeptOf(b, six))
    ensures LaidValues(opt, a, KeptOf(a, six)) == LaidValues(opt, b, KeptOf(b, six))
  {
    var k, l := KeptOf(a, six), KeptOf(b, six);
    SameKeptKeys(a, b, six);
    assert |Keys(k)| == |k| && |Keys(l)| == |l|;
    forall i: nat | i < |k| ensures a[SeqOf(k[i])].val == b[SeqOf(l[i])].val {
      SameKeptValue(a, b, six, i);
    }
    if opt.intern {
      assert Ids(a, k) == Ids(b, l);
    } else {
      assert Rows(a, k) == Rows(b, l);
    }
  }

  lemma SameStore4(opt: Options, a: Log, b: Log)
    requires Capped(a) && Capped(b) && LastWins(a) == LastWins(b) && (opt.intern ==> Table(a) == Table(b))
    ensures Built4(opt, a) == Built4(opt, b)
  {
    KeptFacts(a, false);
    KeptFacts(b, false);
    SameKeptKeys(a, b, false);
    SameIndex4(KeptOf(a, false), KeptOf(b, false));
    SameLaidValues(opt, a, b, false);
  }

  lemma SameStore6(opt: Options, a: Log, b: Log)
    requires Capped(a) && Capped(b) && LastWins(a) == LastWins(b) && (opt.intern ==> Table(a) == Table(b))
    ensures Built6(opt, a) == Built6(opt, b)
  {
    KeptFacts(a, true);
    KeptFacts(b, true);
    SameKeptKeys(a, b, true);
    SameIndex6(KeptOf(a, true), KeptOf(b, true));
    SameLaidValues(opt, a, b, true);
  }

  /** The Map depends on the winners, the counts and, in interned mode, the table only. */
  lemma SameMap(opt: Options, a: Log, b: Log, epoch: i64)
    requires Capped(a) && Capped(b) && LastWins(a) == LastWins(b) && BuiltStats(opt, a) == BuiltStats(opt, b)
    requires opt.intern ==> Table(a) == Table(b)
    ensures BuildMap(opt, a, epoch) == BuildMap(opt, b, epoch)
  {
    SameStore4(opt, a, b);
    SameStore6(opt, a, b);
  }

  lemma SameKeptCount(a: Log, b: Log, six: bool)
    requires Capped(a) && Capped(b) && LastWins(a) == LastWins(b)
    ensures |KeptOf(a, six)| == |KeptOf(b, six)|
  {
    SameKeptKeys(a, b, six);
    assert |Keys(KeptOf(a, six))| == |KeptOf(a, six)|;
    assert |Keys(KeptOf(b, six))| == |KeptOf(b, six)|;
  }

  lemma ConcatInjective(rows: seq<seq<byte>>, rows': seq<seq<byte>>, w: nat)
    requires Uniform(rows, w) && Uniform(rows', w) && |rows| == |rows'| && Concat(rows) == Concat(rows')
    ensures rows == rows'
  {
    forall i: nat | i < |rows| ensures rows[i] == rows'[i] {
      ConcatSlot(rows, w, i);
      ConcatSlot(rows', w, i);
    }
  }

  /** A built Map with any entry at all holds the intern table. */
  lemma TableIsHeld(opt: Options, log: Log, epoch: i64)
    requires LogOk(opt, log) && log != []
    ensures var m := BuildMap(opt, log, epoch);
            || (m.stats.addrs4 > 0 && m.s4.vals.tab == TableBytes(opt, log))
            || (m.stats.addrs6 > 0 && m.s6.vals.tab == TableBytes(opt, log))
  {
    KeptNonEmpty(log);
    Built4Shaped(opt, log);
    Built6Shaped(opt, log);
  }

  lemma SameTables(opt: Options, a: Log, b: Log)
    requires LogOk(opt, a) && LogOk(opt, b) && opt.intern
    requires |Table(a)| == |Table(b)| && TableBytes(opt, a) == TableBytes(opt, b)
    ensures Table(a) == Table(b)
  {
    TableIsUniform(a, opt.valLen);
    TableIsUniform(b, opt.valLen);
    ConcatInjective(Table(a), Table(b), opt.valLen);
  }

  /** Equal Maps, up to an empty family's arrays, hold equal tables. */
  lemma SameMapSameTable(opt: Options, a: Log, b: Log, epoch: i64)
    requires LogOk(opt, a) && LogOk(opt, b) && opt.intern && |a| == |b|
    requires Reopened(BuildMap(opt, a, epoch)) == Reopened(BuildMap(opt, b, epoch))
    ensures Table(a) == Table(b)
  {
    if a != [] {
      var m, n := BuildMap(opt, a, epoch), BuildMap(opt, b, epoch);
      assert m.stats == n.stats;
      Built4Shaped(opt, b);
      Built6Shaped(opt, b);
      TableIsHeld(opt, a, epoch);
      SameTables(opt, a, b);
    }
  }

  /** The answers give the winners back. */
  lemma SameAnswersSameWinners(opt: Options, a: Log, b: Log, epoch: i64)
    requires LogOk(opt, a) && LogOk(opt, b)
    requires Reopened(BuildMap(opt, a, epoch)) == Reopened(BuildMap(opt, b, epoch))
    ensures LastWins(a) == LastWins(b)
  {
    BuildIsValid(opt, a, epoch);
    BuildIsValid(opt, b, epoch);
    forall k: Key
      ensures k in LastWins(a) <==> k in LastWins(b)
      ensures k in LastWins(a) ==> LastWins(a)[k] == LastWins(b)[k]
    {
      ReopenedAnswer(BuildMap(opt, a, epoch), k);
      ReopenedAnswer(BuildMap(opt, b, epoch), k);
      BuildAnswers(opt, a, epoch, k);
      BuildAnswers(opt, b, epoch, k);
    }
  }

  lemma SameFileSameContent(opt: Options, a: Log, b: Log, epoch: i64)
    requires LogOk(opt, a) && LogOk(opt, b)
    requires Reopened(BuildMap(opt, a, epoch)) == Reopened(BuildMap(opt, b, epoch))
    ensures LastWins(a) == LastWins(b) && BuiltStats(opt, a) == BuiltStats(opt, b)
    ensures opt.intern ==> Table(a) == Table(b)
  {
    SameAnswersSameWinners(opt, a, b, epoch);
    assert BuildMap(opt, a, epoch).stats == BuildMap(opt, b, epoch).stats;
    BuildCounts(opt, a, epoch);
    BuildCounts(opt, b, epoch);
    if opt.intern {
      SameMapSameTable(opt, a, b, epoch);
    }
  }

  /** Equal numbers of Adds and of lost ones, over the same winners and tables, are equal counts, and the reverse. */
  lemma StatsFromLogs(opt: Options, a: Log, b: Log)
    requires Capped(a) && Capped(b) && LastWins(a) == LastWins(b) && Distinct(opt, a) == Distinct(opt, b)
    ensures BuiltStats(opt, a) == BuiltStats(opt, b) <==> |a| == |b| && LostAdds(a) == LostAdds(b)
  {
    SameKeptCount(a, b, false);
    SameKeptCount(a, b, true);
    AddsAreConserved(a);
    AddsAreConserved(b);
  }

  /** What two logs must share to be built into one file; all of it can be read from the logs. */
  ghost predicate SameContent(opt: Options, a: Log, b: Log) {
    && LastWins(a) == LastWins(b) && |a| == |b| && LostAdds(a) == LostAdds(b)
    && (opt.intern ==> Table(a) == Table(b))
  }

  /**
   * Two builds with the same options and epoch write the same file exactly when the same Adds win, as many were made
   * and as many lost and, in interned mode, the distinct values first came in the same order.
   */
  lemma SameFileExactly(crc: Checksum, opt: Options, a: Log, b: Log, epoch: i64)
    requires LogOk(opt, a) && LogOk(opt, b)
    ensures Geometry(BuildMap(opt, a, epoch)) && Geometry(BuildMap(opt, b, epoch))
    ensures Write(crc, BuildMap(opt, a, epoch)) == Write(crc, BuildMap(opt, b, epoch)) <==> SameContent(opt, a, b)
  {
    BuildIsShaped(opt, a, epoch);
    BuildIsShaped(opt, b, epoch);
    if SameContent(opt, a, b) {
      StatsFromLogs(opt, a, b);
      SameMap(opt, a, b, epoch);
    } else if Write(crc, BuildMap(opt, a, epoch)) == Write(crc, BuildMap(opt, b, epoch)) {
      WriteIsInjective(crc, BuildMap(opt, a, epoch), BuildMap(opt, b, epoch));
      SameFileSameContent(opt, a, b, epoch);
      StatsFromLogs(opt, a, b);
    }
  }

  /**
   * Order independence: reordering Adds to different addresses gives a byte-identical file, counts included, so long
   * as, in interned mode, the distinct values still come first in the same order.
   */
  lemma FilesAreOrderIndependent(crc: Checksum, opt: Options, a: Log, b: Log, epoch: i64)
    requires LogOk(opt, a) && LogOk(opt, b) && SameHistory(a, b) && (opt.intern ==> Table(a) == Table(b))
    ensures Geometry(BuildMap(opt, a, epoch)) && Geometry(BuildMap(opt, b, epoch))
    ensures Write(crc, BuildMap(opt, a, epoch)) == Write(crc, BuildMap(opt, b, epoch))
  {
    SameHistorySameContent(a, b);
    SameLength(a, b);
    CountPermutes(Loses(LastWins(a)), a, b);
    SameFileExactly(crc, opt, a, b, epoch);
  }

  lemma SameLength(a: Log, b: Log)
    requires SameHistory(a, b)
    ensures |a| == |b|
  {
    SameHistorySameContent(a, b);
    assert |multiset(a)| == |a| && |multiset(b)| == |b|;
  }

  lemma TableOfTwo(r: Rec, s: Rec)
    ensures Table([r, s]) == if r.val == s.val then [r.val] else [r.val, s.val]
  {
    var none: Log := [];
    assert [r, s][..1] == [r] && [r][..0] == none;
    assert Table([r]) == [r.val];
  }

  lemma SwappedIsOk(opt: Options, r: Rec, s: Rec)
    requires LogOk(opt, [r, s])
    ensures LogOk(opt, [s, r])
  {
    assert [r, s][0] == r && [r, s][1] == s;
    assert StorableAt([r, s], 0) && StorableAt([r, s], 1);
  }

  lemma SwappedHistory(r: Rec, s: Rec)
    requires r.key != s.key
    ensures SameHistory([r, s], [s, r])
  {
    SwapKeepsHistory([], r, s, []);
    assert [] + [r, s] + [] == [r, s] && [] + [s, r] + [] == [s, r];
  }

  lemma SwappedTable(r: Rec, s: Rec)
    requires r.val != s.val
    ensures Table([r, s]) != Table([s, r])
  {
    TableOfTwo(r, s);
    TableOfTwo(s, r);
    assert [r.val, s.val][0] != [s.val, r.val][0];
  }

  /** In interned mode one content can have two files: swapping two Adds to different addresses is enough. */
  lemma InternedFilesDepend(crc: Checksum, opt: Options, r: Rec, s: Rec, epoch: i64)
    requires opt.intern && LogOk(opt, [r, s]) && r.key != s.key && r.val != s.val
    ensures LogOk(opt, [s, r]) && SameHistory([r, s], [s, r])
    ensures Geometry(BuildMap(opt, [r, s], epoch)) && Geometry(BuildMap(opt, [s, r], epoch))
    ensures Write(crc, BuildMap(opt, [r, s], epoch)) != Write(crc, BuildMap(opt, [s, r], epoch))
  {
    SwappedIsOk(opt, r, s);
    SwappedHistory(r, s);
    SwappedTable(r, s);
    SameFileExactly(crc, opt, [r, s], [s, r], epoch);
  }

  // ---- interning ----

  lemma SameIndexes4(o: Options, p: Options, log: Log)
    requires Capped(log)
    ensures var d, i := Built4(o, log), Built4(p, log); d.idx == i.idx && d.suffix == i.suffix
  {
  }

  lemma SameIndexes6(o: Options, p: Options, log: Log)
    requires Capped(log)
    ensures var d, i := Built6(o, log), Built6(p, log);
            d.prefix == i.prefix && d.pidx == i.pidx && d.suffix == i.suffix
  {
  }

  ghost predicate SameCounting(s: Stats, t: Stats) {
    s.addrs4 == t.addrs4 && s.addrs6 == t.addrs6 && s.dups == t.dups && s.dupConflicts == t.dupConflicts
  }

  lemma SameStatistics(o: Options, p: Options, log: Log)
    requires Capped(log)
    ensures SameCounting(BuiltStats(o, log), BuiltStats(p, log))
  {
  }

  /** Both Maps store the same addresses in the same places and count the same Adds. */
  ghost predicate SameButValues(d: Map, i: Map) {
    && d.s4.idx == i.s4.idx && d.s4.suffix == i.s4.suffix
    && d.s6.prefix == i.s6.prefix && d.s6.pidx == i.s6.pidx && d.s6.suffix == i.s6.suffix
    && SameCounting(d.stats, i.stats)
  }

  lemma SameLayout(o: Options, p: Options, log: Log, epoch: i64)
    requires Capped(log)
    ensures SameButValues(BuildMap(o, log, epoch), BuildMap(p, log, epoch))
  {
    SameIndexes4(o, p, log);
    SameIndexes6(o, p, log);
    SameStatistics(o, p, log);
  }

  /**
   * Interning is invisible: built direct or interned, the same Adds give the same answers, the same addresses in
   * the same places and the same counts.
   */
  lemma InterningIsInvisible(direct: Options, interned: Options, log: Log, epoch: i64, addr: Address)
    requires LogOk(direct, log) && interned == direct.(intern := !direct.intern)
    ensures LogOk(interned, log)
    ensures Lookup(BuildMap(direct, log, epoch), addr) == Lookup(BuildMap(interned, log, epoch), addr)
    ensures SameButValues(BuildMap(direct, log, epoch), BuildMap(interned, log, epoch))
  {
    BuildRefinesLastWins(direct, log, epoch, addr);
    BuildRefinesLastWins(interned, log, epoch, addr);
    SameLayout(direct, interned, log, epoch);
  }
}
