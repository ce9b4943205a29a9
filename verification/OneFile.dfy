/** Which accepted files are the only ones for their content, and which ones a build can emit. */
module OneFile {
  import opened Words
  import opened Addr
  import opened History
  import opened Groups
  import opened Survivors
  import opened Accounting
  import opened Values
  import opened Store
  import opened Layout
  import opened BuildSpec
  import opened Format
  import opened Framing
  import opened ArtifactLaws
  import opened EndToEnd
  import opened Entries
  import opened Uniqueness
  import Hidden
  import Renumber

  /**
   * An accepted file is the only one for its content exactly when no entry lies under a 4-in-6 key and its table has
   * at most one row; in direct mode, where there is no table, exactly when no entry lies under a 4-in-6 key.
   */
  lemma OnlyFileExactly(crc: Checksum, d: seq<byte>, m: Map)
    requires Open(crc, d) == Accepted(m)
    ensures Valid(m)
    ensures OnlyFile(crc, d, m) <==> NoHidden(m) && m.stats.distinct <= 1
  {
    AcceptedIsCanonical(crc, d, m);
    if !NoHidden(m) {
      Hidden.HiddenEntryTwoFiles(crc, d, m);
    } else if m.stats.distinct <= 1 {
      OneFileWithoutHidden(crc, d, m);
    } else {
      Renumber.TwoRowsTwoFiles(crc, d, m);
    }
  }

  // ---- the entries of a Map as Adds ----

  ghost function EntryCount(m: Map): nat {
    m.stats.addrs4 + m.stats.addrs6
  }

  /** The stored addresses of one family. */
  ghost function StoredIn(m: Map, six: bool): seq<nat> {
    if six then Addresses6(m.s6) else Addresses4(m.s4)
  }

  /** The key of entry `i`, the 32-bit family first. */
  ghost function EntryKey(m: Map, i: nat): (k: Key)
    requires Valid(m) && i < EntryCount(m)
    ensures k.Key6? <==> i >= m.stats.addrs4
    ensures var j := if k.Key6? then i - m.stats.addrs4 else i;
            j < |StoredIn(m, k.Key6?)| && Number(k) == StoredIn(m, k.Key6?)[j]
  {
    var n := m.stats.addrs4;
    if i < n then Key4(Ip4At(m, i)) else Key6(Addr6At(m, i - n))
  }

  ghost function EntryVal(m: Map, i: nat): Value
    requires Valid(m) && i < EntryCount(m)
  {
    var n := m.stats.addrs4;
    if i < n then
      Entry4Readable(m, i);
      Get(m.s4.vals, i)
    else
      Entry6Readable(m, i - n);
      Get(m.s6.vals, i - n)
  }

  /** Entry `i` as the Add that could have left it. */
  ghost function EntryRec(m: Map, i: nat): (r: Rec)
    requires Valid(m) && i < EntryCount(m)
  {
    Rec(EntryKey(m, i), EntryVal(m, i))
  }

  lemma EntryKeysDiffer(m: Map, i: nat, j: nat)
    requires Valid(m) && i < j < EntryCount(m)
    ensures EntryKey(m, i) != EntryKey(m, j)
  {
    StoredAscend(m);
  }

  lemma EntryAnswers(m: Map, i: nat)
    requires Valid(m) && i < EntryCount(m)
    ensures Answer(m, EntryKey(m, i)) == Some(EntryVal(m, i)) && |EntryVal(m, i)| == m.valLen
  {
    var n := m.stats.addrs4;
    StoredAscend(m);
    if i < n {
      Entry4Readable(m, i);
      ScanAt(Addresses4(m.s4), m.s4.vals, i);
    } else {
      Entry6Key(m, i - n);
    }
  }

  ghost predicate HasEntry(m: Map, k: Key)
    requires Valid(m)
  {
    exists i: nat :: i < EntryCount(m) && EntryKey(m, i) == k
  }

  /** Only entries answer. */
  lemma AnswersAreEntries(m: Map, k: Key)
    requires Valid(m) && Answer(m, k).Some?
    ensures HasEntry(m, k)
  {
    StoredAscend(m);
    match k
    case Key4(ip) =>
      var j := Find(Addresses4(m.s4), ip).value;
      assert EntryKey(m, j) == k;
    case Key6(a) =>
      var j := Find(Addresses6(m.s6), Num(a)).value;
      LessIsNumeric(a, Addr6At(m, j));
      assert EntryKey(m, m.stats.addrs4 + j) == k;
  }

  // ---- a log with the entries and the counts of a Map ----

  ghost function Other(v: Value): (w: Value)
    requires v != []
    ensures |w| == |v| && w != v
  {
    var w := v[0 := if v[0] == 0 then 1 else 0];
    assert w[0] != v[0];
    w
  }

  ghost function Repeat(r: Rec, n: nat): (log: Log)
    ensures |log| == n && forall i :: 0 <= i < n ==> log[i] == r
  {
    seq(n, _ => r)
  }

  ghost function EntryLog(m: Map): (log: Log)
    requires Valid(m)
    ensures |log| == EntryCount(m) && forall i: nat :: i < |log| ==> log[i] == EntryRec(m, i)
  {
    seq(EntryCount(m), i requires 0 <= i < EntryCount(m) => EntryRec(m, i))
  }

  /** The counts are such that a log can have them. */
  ghost predicate Countable(m: Map) {
    && m.stats.dupConflicts <= m.stats.dups && m.valLen > 0
    && (m.stats.dups > 0 ==> EntryCount(m) > 0)
  }

  /** Adds that lose to the first entry: as many as there were duplicates, the conflicting ones with another value. */
  ghost function Superseded(m: Map): (log: Log)
    requires Valid(m) && Countable(m)
    ensures |log| == m.stats.dups
  {
    if m.stats.dups == 0 then []
    else
      EntryAnswers(m, 0);
      var r, s := EntryRec(m, 0), m.stats;
      Repeat(r.(val := Other(r.val)), s.dupConflicts) + Repeat(r, s.dups - s.dupConflicts)
  }

  ghost function LogFor(m: Map): (log: Log)
    requires Valid(m) && Countable(m)
    ensures |log| == m.stats.dups + EntryCount(m)
  {
    Superseded(m) + EntryLog(m)
  }

  /** A record for some entry's key, with a value of the right width. */
  ghost predicate ForEntry(m: Map, r: Rec)
    requires Valid(m)
  {
    HasEntry(m, r.key) && |r.val| == m.valLen
  }

  lemma SupersededForEntry(m: Map, i: nat)
    requires Valid(m) && Countable(m) && i < m.stats.dups
    ensures ForEntry(m, Superseded(m)[i])
  {
    EntryAnswers(m, 0);
    assert Superseded(m)[i].key == EntryKey(m, 0);
  }

  lemma EntryForEntry(m: Map, i: nat)
    requires Valid(m) && i < EntryCount(m)
    ensures ForEntry(m, EntryRec(m, i))
  {
    EntryAnswers(m, i);
    assert EntryRec(m, i).key == EntryKey(m, i);
  }

  lemma LogHead(a: Log, b: Log, i: nat)
    requires i < |a|
    ensures (a + b)[i] == a[i]
  {
  }

  lemma LogTail(a: Log, b: Log, i: nat)
    requires |a| <= i < |a + b|
    ensures (a + b)[i] == b[i - |a|]
  {
  }

  /** Every record of the log is for an entry. */
  lemma LogForEntries(m: Map, i: nat)
    requires Valid(m) && Countable(m) && i < |LogFor(m)|
    ensures ForEntry(m, LogFor(m)[i])
  {
    var n := m.stats.dups;
    if i < n {
      LogHead(Superseded(m), EntryLog(m), i);
      SupersededForEntry(m, i);
    } else {
      LogTail(Superseded(m), EntryLog(m), i);
      EntryForEntry(m, i - n);
    }
  }

  lemma TailWins(a: Log, b: Log, i: nat)
    requires i < |b| && forall j :: i < j < |b| ==> b[j].key != b[i].key
    ensures b[i].key in LastWins(a + b) && LastWins(a + b)[b[i].key] == b[i].val
  {
    forall j | |a| + i < j < |a + b| ensures (a + b)[j].key != (a + b)[|a| + i].key {
      assert (a + b)[j] == b[j - |a|];
    }
    LastOneWins(a + b, |a| + i);
  }

  /** The entry's own Add is the last for its key. */
  lemma EntryWins(m: Map, i: nat)
    requires Valid(m) && Countable(m) && i < EntryCount(m)
    ensures EntryKey(m, i) in LastWins(LogFor(m)) && LastWins(LogFor(m))[EntryKey(m, i)] == EntryVal(m, i)
  {
    var log := EntryLog(m);
    forall j: nat | i < j < |log| ensures log[j].key != log[i].key {
      EntryKeysDiffer(m, i, j);
    }
    TailWins(Superseded(m), log, i);
  }

  /** The log's winners are the Map's answers. */
  lemma WinnersAreAnswers(m: Map, k: Key)
    requires Valid(m) && Countable(m)
    ensures Answer(m, k) == if k in LastWins(LogFor(m)) then Some(LastWins(LogFor(m))[k]) else None
    ensures k in LastWins(LogFor(m)) <==> HasEntry(m, k)
  {
    var log := LogFor(m);
    LastWinsKeys(log, k);
    if k in LastWins(log) {
      var i: nat :| i < |log| && log[i].key == k;
      LogForEntries(m, i);
    }
    if Answer(m, k).Some? {
      AnswersAreEntries(m, k);
    }
    if HasEntry(m, k) {
      var i: nat :| i < EntryCount(m) && EntryKey(m, i) == k;
      EntryWins(m, i);
      EntryAnswers(m, i);
    }
  }

  // ---- its counts ----

  lemma {:induction false} CountNone<T(!new)>(p: T -> bool, s: seq<T>)
    requires forall i :: 0 <= i < |s| ==> !p(s[i])
    ensures Count(p, s) == 0
  {
    if s != [] {
      CountNone(p, s[..|s| - 1]);
    }
  }

  lemma {:induction false} CountEach<T(!new)>(p: T -> bool, s: seq<T>)
    requires forall i :: 0 <= i < |s| ==> p(s[i])
    ensures Count(p, s) == |s|
  {
    if s != [] {
      CountEach(p, s[..|s| - 1]);
    }
  }

  lemma EntriesStay(m: Map)
    requires Valid(m) && Countable(m)
    ensures Count(Loses(LastWins(LogFor(m))), EntryLog(m)) == 0
  {
    forall i: nat | i < EntryCount(m) ensures !Loses(LastWins(LogFor(m)))(EntryLog(m)[i]) {
      EntryWins(m, i);
    }
    CountNone(Loses(LastWins(LogFor(m))), EntryLog(m));
  }

  lemma SupersededLose(m: Map)
    requires Valid(m) && Countable(m)
    ensures Count(Loses(LastWins(LogFor(m))), Superseded(m)) == m.stats.dupConflicts
  {
    if m.stats.dups > 0 {
      var loses, r, s := Loses(LastWins(LogFor(m))), EntryRec(m, 0), m.stats;
      EntryWins(m, 0);
      EntryAnswers(m, 0);
      var lost, again := Repeat(r.(val := Other(r.val)), s.dupConflicts), Repeat(r, s.dups - s.dupConflicts);
      CountConcat(loses, lost, again);
      CountEach(loses, lost);
      CountNone(loses, again);
    }
  }

  /** The lost Adds are the conflicting ones. */
  lemma LogLoses(m: Map)
    requires Valid(m) && Countable(m)
    ensures LostAdds(LogFor(m)) == m.stats.dupConflicts
  {
    CountConcat(Loses(LastWins(LogFor(m))), Superseded(m), EntryLog(m));
    EntriesStay(m);
    SupersededLose(m);
  }

  /** The log's keys of one family are the addresses stored for it. */
  lemma EntriesNumber(m: Map, six: bool)
    requires Valid(m) && Countable(m)
    ensures |KeysIn(LogFor(m), six)| == if six then m.stats.addrs6 else m.stats.addrs4
  {
    StoredAscend(m);
    var ks, a := KeysIn(LogFor(m), six), StoredIn(m, six);
    forall k | k in ks ensures Number(k) in a {
      WinnersAreAnswers(m, k);
      var i: nat :| i < EntryCount(m) && EntryKey(m, i) == k;
      assert k == EntryKey(m, i);
    }
    forall i | 0 <= i < |a| ensures Numbered(ks, a[i]) {
      var e := if six then m.stats.addrs4 + i else i;
      EntryWins(m, e);
      assert EntryKey(m, e) in ks;
    }
    NumbersCount(ks, six, a);
  }

  // ---- the files that builds emit ----

  /** The options of a direct build with the Map's value width, and a log that leaves its entries and counts. */
  ghost predicate Leaves(m: Map, opt: Options, log: Log)
    requires Valid(m) && Countable(m)
  {
    log == LogFor(m) && opt.valLen == m.valLen && !opt.intern && !Interned(m) && |log| <= MAX_U32
  }

  /** Add can have accepted the log. */
  lemma LeavingIsOk(m: Map, opt: Options, log: Log)
    requires Geometry(m) && Valid(m) && NoHidden(m) && Countable(m) && Leaves(m, opt, log)
    ensures LogOk(opt, log)
  {
    forall i: nat | i < |log| ensures |log[i].val| == m.valLen && StorableAt(log, i) {
      LogForEntries(m, i);
    }
  }

  /** A direct build's counts follow from the log's length, its keys and its lost Adds. */
  lemma DirectStats(opt: Options, log: Log, epoch: i64, s: Stats)
    requires Capped(log) && !opt.intern && s.distinct == 0
    requires |KeysIn(log, false)| == s.addrs4 && |KeysIn(log, true)| == s.addrs6
    requires |log| == s.dups + s.addrs4 + s.addrs6 && LostAdds(log) == s.dupConflicts
    ensures BuildMap(opt, log, epoch).stats == s
  {
    KeptCountsKeys(log, false);
    KeptCountsKeys(log, true);
    BuildCounts(opt, log, epoch);
  }

  lemma LeavingCounts(m: Map, opt: Options, log: Log)
    requires Valid(m) && Countable(m) && Leaves(m, opt, log)
    ensures BuildMap(opt, log, m.epoch).stats == m.stats
  {
    EntriesNumber(m, false);
    EntriesNumber(m, true);
    LogLoses(m);
    DirectStats(opt, log, m.epoch, m.stats);
  }

  /** Built, it is the Map again as far as any caller can tell. */
  lemma LeavingIsSame(m: Map, opt: Options, log: Log)
    requires Valid(m) && Countable(m) && Leaves(m, opt, log) && LogOk(opt, log)
    ensures SameToCallers(m, BuildMap(opt, log, m.epoch))
  {
    LeavingCounts(m, opt, log);
    forall addr: Address ensures Indistinct(m, BuildMap(opt, log, m.epoch), addr) {
      BuildRefinesLastWins(opt, log, m.epoch, addr);
      match KeyOf(addr)
      case None =>
      case Some(k) => WinnersAreAnswers(m, k);
    }
  }

  ghost predicate Emits(crc: Checksum, d: seq<byte>, opt: Options, log: Log, epoch: i64) {
    LogOk(opt, log) && Sliceable(BuildMap(opt, log, epoch)) && Write(crc, BuildMap(opt, log, epoch)) == d
  }

  lemma LoneIsEmitted(crc: Checksum, d: seq<byte>, m: Map, opt: Options, log: Log)
    requires OnlyFile(crc, d, m) && LogOk(opt, log) && SameToCallers(m, BuildMap(opt, log, m.epoch))
    ensures Emits(crc, d, opt, log, m.epoch)
  {
    BuildIsShaped(opt, log, m.epoch);
    BuildIsValid(opt, log, m.epoch);
    LoneFile(crc, d, m, BuildMap(opt, log, m.epoch));
  }

  lemma CanBeEmitted(crc: Checksum, d: seq<byte>, m: Map)
    requires Open(crc, d) == Accepted(m) && !Interned(m)
    requires Valid(m) && NoHidden(m) && m.stats.dups + EntryCount(m) <= MAX_U32
    requires m.stats.dups > 0 ==> EntryCount(m) > 0
    ensures exists opt, log, epoch :: Emits(crc, d, opt, log, epoch)
  {
    AcceptedIsCanonical(crc, d, m);
    var opt :| opt == Options(m.valLen, false);
    var log := LogFor(m);
    LeavingIsOk(m, opt, log);
    LeavingIsSame(m, opt, log);
    OneFileWithoutHidden(crc, d, m);
    LoneIsEmitted(crc, d, m, opt, log);
  }

  /** A sound Map that answers as the Map of a lone file is written as that file. */
  lemma LoneFile(crc: Checksum, d: seq<byte>, m: Map, built: Map)
    requires OnlyFile(crc, d, m) && SameToCallers(m, built) && Geometry(built) && Valid(built)
    ensures Write(crc, built) == d
  {
    OpenWrite(crc, built);
    ReopenedValid(built);
    ValidateIsExact(built);
    ReopenedIsSame(m, built);
    assert Open(crc, Write(crc, built)) == Accepted(Reopened(built));
  }

  lemma ReopenedIsSame(m: Map, built: Map)
    requires Valid(built) && SameToCallers(m, built)
    ensures SameToCallers(m, Reopened(built))
  {
    forall addr: Address ensures Indistinct(m, Reopened(built), addr) {
      assert Indistinct(m, built, addr);
      ReopenedAnswers(built, addr);
    }
  }

  lemma BuiltHidesNothing(opt: Options, log: Log, epoch: i64, m: Map)
    requires LogOk(opt, log) && m == Reopened(BuildMap(opt, log, epoch)) && Valid(m)
    ensures NoHidden(m)
  {
    forall i: nat | i < m.stats.addrs6 ensures !Mapped(Addr6At(m, i)) {
      BuiltEntriesAnswer(opt, log, epoch, i);
      LessIsNumeric(Addr6At(m, i), Addr6At(BuildMap(opt, log, epoch), i));
    }
  }

  lemma BuiltCounts(opt: Options, log: Log, epoch: i64)
    requires LogOk(opt, log)
    ensures var m := BuildMap(opt, log, epoch);
            m.stats.dups + EntryCount(m) <= MAX_U32 && (m.stats.dups > 0 ==> EntryCount(m) > 0)
  {
    BuildCounts(opt, log, epoch);
    if log != [] {
      KeptNonEmpty(log);
    }
  }

  /** Whatever a build emits has no hidden entry, and its counts are those of a log. */
  lemma EmittedIs(crc: Checksum, d: seq<byte>, m: Map, opt: Options, log: Log, epoch: i64)
    requires Open(crc, d) == Accepted(m) && Emits(crc, d, opt, log, epoch)
    ensures Valid(m) && NoHidden(m)
    ensures m.stats.dups + EntryCount(m) <= MAX_U32 && (m.stats.dups > 0 ==> EntryCount(m) > 0)
  {
    BuildIsShaped(opt, log, epoch);
    OpenWrite(crc, BuildMap(opt, log, epoch));
    AcceptedIsCanonical(crc, d, m);
    BuiltHidesNothing(opt, log, epoch, m);
    BuiltCounts(opt, log, epoch);
  }

  /**
   * The direct-mode files that some build emits are exactly the accepted ones without an entry under a 4-in-6 key
   * whose addresses and duplicates add up to at most 2^32 - 1, and which count duplicates only of stored addresses.
   */
  lemma EmittedExactly(crc: Checksum, d: seq<byte>, m: Map)
    requires Open(crc, d) == Accepted(m) && !Interned(m)
    ensures Valid(m)
    ensures (exists opt, log, epoch :: Emits(crc, d, opt, log, epoch)) <==>
            && NoHidden(m) && m.stats.dups + EntryCount(m) <= MAX_U32
            && (m.stats.dups > 0 ==> EntryCount(m) > 0)
  {
    AcceptedIsCanonical(crc, d, m);
    if opt, log, epoch :| Emits(crc, d, opt, log, epoch) {
      EmittedIs(crc, d, m, opt, log, epoch);
    }
    if && NoHidden(m) && m.stats.dups + EntryCount(m) <= MAX_U32
       && (m.stats.dups > 0 ==> EntryCount(m) > 0) {
      CanBeEmitted(crc, d, m);
    }
  }
}
