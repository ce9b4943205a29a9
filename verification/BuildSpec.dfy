/** The Map that Build returns, as a function of the log, and the proof that it answers as the last Adds say. */
module BuildSpec {
  import opened Words
  import opened Addr
  import opened History
  import opened Groups
  import opened Survivors
  import opened Accounting
  import opened Values
  import opened Store
  import opened Layout

  /** What the layouts need to know of the kept entries. */
  lemma KeptFacts(log: Log, six: bool)
    requires Capped(log)
    ensures var k := KeptOf(log, six);
            && Recorded(log, k) && KeptOk(k) && |k| <= |log|
            && (forall i :: 0 <= i < |k| ==> AddrFits(k[i], six))
  {
    var k := KeptOf(log, six);
    SortedWordsAscend(log, six);
    KeptAscends(Sorting.Sort(WordsOf(log, six)));
    WordsCount(log);
    forall i | 0 <= i < |k| ensures SeqOf(k[i]) < |log| && AddrFits(k[i], six) {
      KeptWins(log, six, k[i]);
    }
  }

  ghost predicate AddrFits(w: nat, six: bool) {
    if six then AddrOf(w) <= TOP else Top(w) < GROUPS4
  }

  lemma {:induction false} PrefixesFit(kept: seq<nat>)
    requires forall i :: 0 <= i < |kept| ==> AddrFits(kept[i], true)
    ensures forall g :: 0 <= g < |Prefixes(kept)| ==> Prefixes(kept)[g] < 0x1_0000_0000_0000_0000
  {
    if kept != [] {
      PrefixesFit(kept[..|kept| - 1]);
      assert AddrFits(kept[|kept| - 1], true);
    }
  }

  ghost function Prefix6(kept: seq<nat>): (p: seq<u64>)
    requires forall i :: 0 <= i < |kept| ==> AddrFits(kept[i], true)
    ensures p == Prefixes(kept)
  {
    PrefixesFit(kept);
    Prefixes(kept)
  }

  ghost function Built4(opt: Options, log: Log): Store4
    requires Capped(log)
  {
    KeptFacts(log, false);
    var k := KeptOf(log, false);
    if k == [] then EMPTY4 else Store4(Index4(k), Suffix4(k), LaidValues(opt, log, k))
  }

  ghost function Built6(opt: Options, log: Log): Store6
    requires Capped(log)
  {
    KeptFacts(log, true);
    var k := KeptOf(log, true);
    Store6(Prefix6(k), Index6(k), Suffix6(k), LaidValues(opt, log, k))
  }

  ghost function BuiltStats(opt: Options, log: Log): Stats
    requires Capped(log)
  {
    Stats(|KeptOf(log, false)|, |KeptOf(log, true)|, DroppedIn(log, false) + DroppedIn(log, true),
          ConflictsIn(log, false) + ConflictsIn(log, true), Distinct(opt, log))
  }

  /** The Map for a log. */
  ghost function BuildMap(opt: Options, log: Log, epoch: i64): Map
    requires Capped(log)
  {
    Map(Built4(opt, log), Built6(opt, log), opt.valLen, epoch, BuiltStats(opt, log))
  }

  lemma Built4Ok(opt: Options, log: Log)
    requires LogOk(opt, log)
    ensures Valid4(Built4(opt, log), |KeptOf(log, false)|, opt.valLen, Distinct(opt, log))
    ensures Addresses4(Built4(opt, log)) == Keys(KeptOf(log, false))
  {
    var k := KeptOf(log, false);
    KeptFacts(log, false);
    if k != [] {
      forall i | 0 <= i < |k| ensures Top(k[i]) < GROUPS4 {
        assert AddrFits(k[i], false);
      }
      Layout4Ok(k);
      LaidValuesOk(opt, log, k);
    }
  }

  lemma Built6Ok(opt: Options, log: Log)
    requires LogOk(opt, log)
    ensures Valid6(Built6(opt, log), |KeptOf(log, true)|, opt.valLen, Distinct(opt, log))
    ensures Addresses6(Built6(opt, log)) == Keys(KeptOf(log, true))
  {
    var k := KeptOf(log, true);
    KeptFacts(log, true);
    Layout6Ok(k);
    if k != [] {
      LaidValuesOk(opt, log, k);
    }
  }

  /** A built Map meets everything a lookup relies on. */
  lemma BuildIsValid(opt: Options, log: Log, epoch: i64)
    requires LogOk(opt, log)
    ensures Valid(BuildMap(opt, log, epoch))
  {
    Built4Ok(opt, log);
    Built6Ok(opt, log);
  }

  /** What the log says an address holds. */
  ghost function LastAdded(log: Log, addr: Address): Option<Value> {
    match KeyOf(addr)
    case None => None
    case Some(k) => if k in LastWins(log) then Some(LastWins(log)[k]) else None
  }

  ghost predicate HoldsRows(log: Log, kept: seq<nat>, vals: Values)
    requires Recorded(log, kept)
  {
    forall i: nat :: i < |kept| ==> Readable(vals, i) && Get(vals, i) == log[SeqOf(kept[i])].val
  }

  lemma LaidHoldsRows(opt: Options, log: Log, kept: seq<nat>)
    requires LogOk(opt, log) && Recorded(log, kept)
    ensures HoldsRows(log, kept, LaidValues(opt, log, kept))
  {
    forall i: nat | i < |kept|
      ensures var v := LaidValues(opt, log, kept); Readable(v, i) && Get(v, i) == log[SeqOf(kept[i])].val
    {
      if opt.intern {
        LaidInterned(opt, log, kept, i);
      } else {
        LaidDirect(opt, log, kept, i);
      }
    }
  }

  /** Scanning the kept addresses answers as the last-wins map. */
  lemma ScanKept(log: Log, k: Key, vals: Values)
    requires Capped(log) && Recorded(log, KeptOf(log, k.Key6?)) && HoldsRows(log, KeptOf(log, k.Key6?), vals)
    ensures Scan(Keys(KeptOf(log, k.Key6?)), vals, Number(k))
         == if k in LastWins(log) then Some(LastWins(log)[k]) else None
  {
    var kept := KeptOf(log, k.Key6?);
    var a := Keys(kept);
    if k in LastWins(log) {
      var w := WinnerKept(log, k);
      var p :| 0 <= p < |kept| && kept[p] == w;
      assert a[p] == Number(k);
    }
    if Find(a, Number(k)).Some? {
      var j := Find(a, Number(k)).value;
      KeptWins(log, k.Key6?, kept[j]);
      NumberIsInjective(log[SeqOf(kept[j])].key, k);
    }
  }

  /** A built Map answers each key as the last-wins map does. */
  lemma BuildAnswers(opt: Options, log: Log, epoch: i64, k: Key)
    requires LogOk(opt, log)
    ensures Answer(BuildMap(opt, log, epoch), k) == if k in LastWins(log) then Some(LastWins(log)[k]) else None
  {
    var kept := KeptOf(log, k.Key6?);
    KeptFacts(log, k.Key6?);
    LaidHoldsRows(opt, log, kept);
    ScanKept(log, k, LaidValues(opt, log, kept));
    if k.Key6? {
      Built6Ok(opt, log);
    } else {
      Built4Ok(opt, log);
    }
  }

  /** Build refines the plain map: every lookup answers as the last Add of the address, or misses if there was none. */
  lemma BuildRefinesLastWins(opt: Options, log: Log, epoch: i64, addr: Address)
    requires LogOk(opt, log)
    ensures Lookup(BuildMap(opt, log, epoch), addr) == LastAdded(log, addr)
  {
    match KeyOf(addr)
    case None =>
    case Some(k) => BuildAnswers(opt, log, epoch, k);
  }
}
