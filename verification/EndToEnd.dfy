/** From a run of Adds to lookups on the reopened artifact, and the accounting of every Add. */
module EndToEnd {
  import opened Words
  import opened LittleEndian
  import opened Addr
  import opened History
  import opened Groups
  import opened Survivors
  import opened Accounting
  import opened Values
  import opened Store
  import opened Layout
  import opened BuildSpec
  import opened Format
  import opened Framing
  import opened ArtifactLaws

  // ---- what Build makes can be written ----

  lemma KeptNonEmpty(log: Log)
    requires Capped(log) && log != []
    ensures |KeptOf(log, false)| + |KeptOf(log, true)| > 0
  {
    WordsCount(log);
    if WordsOf(log, false) != [] {
      assert KeptOf(log, false) != [];
    } else {
      assert KeptOf(log, true) != [];
    }
  }

  /** The counts of a build: kept, dropped and conflicting Adds add up, and all fit 32 bits. */
  lemma BuildCounts(opt: Options, log: Log, epoch: i64)
    requires Capped(log)
    ensures var s := BuildMap(opt, log, epoch).stats;
            && s.addrs4 + s.addrs6 + s.dups == |log|
            && s.dupConflicts == LostAdds(log) <= s.dups
            && s.distinct <= |log|
  {
    AddsAreConserved(log);
    ConflictsWithinDrops(log, false);
    ConflictsWithinDrops(log, true);
  }

  lemma Built4Shaped(opt: Options, log: Log)
    requires LogOk(opt, log)
    ensures var n, s := |KeptOf(log, false)|, Built4(opt, log);
            && |s.suffix| == n
            && if n > 0 then |s.idx| == GROUPS4 + 1 && Shaped(s.vals, n, opt.valLen, Distinct(opt, log))
               else s.vals.tab == []
    ensures KeptOf(log, false) != [] ==> Built4(opt, log).vals.tab == TableBytes(opt, log)
  {
    Built4Ok(opt, log);
  }

  lemma Built6Shaped(opt: Options, log: Log)
    requires LogOk(opt, log)
    ensures var n, s := |KeptOf(log, true)|, Built6(opt, log);
            && |s.suffix| == n
            && if n > 0 then 0 < |s.prefix| <= n && |s.pidx| == |s.prefix| + 1
                             && Shaped(s.vals, n, opt.valLen, Distinct(opt, log))
               else s.prefix == []
    ensures Built6(opt, log).vals.tab == TableBytes(opt, log)
  {
    Built6Ok(opt, log);
    KeptFacts(log, true);
    RunsAre(KeptOf(log, true));
  }

  /** The table both families share. */
  ghost function TableBytes(opt: Options, log: Log): seq<byte> {
    if opt.intern then Concat(Table(log)) else []
  }

  /** Every Map that Build can produce is well-shaped: no count, length or offset of its file overflows. */
  lemma BuildIsShaped(opt: Options, log: Log, epoch: i64)
    requires LogOk(opt, log)
    ensures Geometry(BuildMap(opt, log, epoch))
  {
    BuildCounts(opt, log, epoch);
    Built4Shaped(opt, log);
    Built6Shaped(opt, log);
    if log != [] {
      KeptNonEmpty(log);
    }
  }

  /**
   * End to end: for every run of accepted Adds, of either family and in either mode, opening the bytes that
   * WriteTo emits for the built Map succeeds, and the reopened Map answers every address as the last Add for it
   * says, with the build's counts, value width and epoch.
   */
  lemma BuildWriteOpenLookup(crc: Checksum, opt: Options, log: Log, epoch: i64, addr: Address)
    requires LogOk(opt, log)
    ensures Geometry(BuildMap(opt, log, epoch))
    ensures var r := Open(crc, Write(crc, BuildMap(opt, log, epoch)));
            && r.Accepted? && Valid(r.m)
            && Lookup(r.m, addr) == LastAdded(log, addr)
            && r.m.stats == BuildMap(opt, log, epoch).stats && r.m.valLen == opt.valLen && r.m.epoch == epoch
  {
    BuildIsShaped(opt, log, epoch);
    BuildIsValid(opt, log, epoch);
    RoundTripKeepsAnswers(crc, BuildMap(opt, log, epoch), addr);
    BuildRefinesLastWins(opt, log, epoch, addr);
  }

  // ---- the same over every sequence of Adds, refused ones included ----

  /** What Add is called with. */
  datatype Call = Call(addr: Address, val: Value)

  /** The records of the calls that Add accepts, in order. */
  ghost function AcceptedOf(opt: Options, calls: seq<Call>): (log: Log)
    ensures |log| <= |calls|
  {
    if calls == [] then []
    else
      var n := |calls| - 1;
      var log, c := AcceptedOf(opt, calls[..n]), calls[n];
      if Accepts(opt, |log|, c.addr, c.val)
      then log + [Rec(KeyOf(c.addr).value, c.val)] else log
  }

  lemma AcceptedNext(opt: Options, calls: seq<Call>, i: nat)
    requires i < |calls|
    ensures var log, c := AcceptedOf(opt, calls[..i]), calls[i];
            AcceptedOf(opt, calls[..i + 1]) ==
            if Accepts(opt, |log|, c.addr, c.val) then log + [Rec(KeyOf(c.addr).value, c.val)] else log
  {
    assert calls[..i + 1][..i] == calls[..i];
  }

  lemma {:induction false} AcceptedIsOk(opt: Options, calls: seq<Call>)
    requires OptionsOk(opt)
    ensures LogOk(opt, AcceptedOf(opt, calls))
  {
    if calls != [] {
      var n := |calls| - 1;
      var log, c := AcceptedOf(opt, calls[..n]), calls[n];
      AcceptedIsOk(opt, calls[..n]);
      if Accepts(opt, |log|, c.addr, c.val) {
        KeyIsStorable(c.addr);
        LogPush(opt, log, Rec(KeyOf(c.addr).value, c.val));
      }
    }
  }

  /** Calls that spell the records of a log. */
  ghost function CallsFor(log: Log): (calls: seq<Call>)
    ensures |calls| == |log|
  {
    seq(|log|, i requires 0 <= i < |log| => Call(AddressOf(log[i].key), log[i].val))
  }

  lemma LogInit(opt: Options, log: Log)
    requires LogOk(opt, log) && log != []
    ensures LogOk(opt, log[..|log| - 1])
  {
    var init := log[..|log| - 1];
    forall i: nat | i < |init| ensures StorableAt(init, i) {
      assert StorableAt(log, i);
    }
  }

  lemma RecordIsAccepted(opt: Options, log: Log, i: nat)
    requires LogOk(opt, log) && i < |log|
    ensures KeyOf(AddressOf(log[i].key)) == Some(log[i].key)
    ensures Accepts(opt, i, AddressOf(log[i].key), log[i].val)
  {
    assert StorableAt(log, i);
    AddressHasKey(log[i].key);
  }

  lemma AcceptedPush(opt: Options, calls: seq<Call>, c: Call)
    ensures var log := AcceptedOf(opt, calls);
            AcceptedOf(opt, calls + [c]) ==
            if Accepts(opt, |log|, c.addr, c.val) then log + [Rec(KeyOf(c.addr).value, c.val)] else log
  {
    assert (calls + [c])[..|calls|] == calls;
  }

  /** One more call that spells an acceptable record. */
  lemma CallAccepted(opt: Options, calls: seq<Call>, init: Log, r: Rec)
    requires AcceptedOf(opt, calls) == init && KeyOf(AddressOf(r.key)) == Some(r.key)
    requires Accepts(opt, |init|, AddressOf(r.key), r.val)
    ensures AcceptedOf(opt, calls + [Call(AddressOf(r.key), r.val)]) == init + [r]
  {
    AcceptedPush(opt, calls, Call(AddressOf(r.key), r.val));
  }

  /** Which call Add accepts after `calls`: any address but an invalid or zoned one, the right width, room left. */
  ghost predicate Acceptable(opt: Options, n: nat, c: Call) {
    (c.addr.V4? || (c.addr.V6? && c.addr.zone == "")) && |c.val| == opt.valLen && n < 0xFFFF_FFFF
  }

  /** One more call is recorded exactly when it is acceptable, and leaves no trace otherwise. */
  lemma AcceptsExactly(opt: Options, calls: seq<Call>, c: Call)
    ensures var log := AcceptedOf(opt, calls);
            if Acceptable(opt, |log|, c)
            then KeyOf(c.addr).Some? && AcceptedOf(opt, calls + [c]) == log + [Rec(KeyOf(c.addr).value, c.val)]
            else AcceptedOf(opt, calls + [c]) == log
  {
    AcceptedPush(opt, calls, c);
  }

  lemma CallsPush(log: Log, r: Rec)
    ensures CallsFor(log + [r]) == CallsFor(log) + [Call(AddressOf(r.key), r.val)]
  {
  }

  lemma LastAccepted(opt: Options, log: Log)
    requires log != [] && AcceptedOf(opt, CallsFor(log[..|log| - 1])) == log[..|log| - 1]
    requires var r := log[|log| - 1];
             KeyOf(AddressOf(r.key)) == Some(r.key) && Accepts(opt, |log| - 1, AddressOf(r.key), r.val)
    ensures AcceptedOf(opt, CallsFor(log)) == log
  {
    var init, r := log[..|log| - 1], log[|log| - 1];
    CallsPush(init, r);
    CallAccepted(opt, CallsFor(init), init, r);
    assert log == init + [r];
  }

  /** Every such log is what Add accepts of some calls, none of them refused. */
  lemma {:induction false} LogIsAccepted(opt: Options, log: Log)
    requires LogOk(opt, log)
    ensures AcceptedOf(opt, CallsFor(log)) == log
  {
    if log != [] {
      LogInit(opt, log);
      LogIsAccepted(opt, log[..|log| - 1]);
      RecordIsAccepted(opt, log, |log| - 1);
      LastAccepted(opt, log);
    }
  }

  /** The whole pipeline on any calls at all: refused ones leave no trace. */
  lemma AnyCallsEndToEnd(crc: Checksum, opt: Options, calls: seq<Call>, epoch: i64, addr: Address)
    requires OptionsOk(opt)
    ensures var log := AcceptedOf(opt, calls);
            && LogOk(opt, log) && Geometry(BuildMap(opt, log, epoch))
            && var r := Open(crc, Write(crc, BuildMap(opt, log, epoch)));
               r.Accepted? && Lookup(r.m, addr) == LastAdded(log, addr)
  {
    AcceptedIsOk(opt, calls);
    BuildWriteOpenLookup(crc, opt, AcceptedOf(opt, calls), epoch, addr);
  }

  /** What is added last is found in the file, at every spelling of its address. */
  lemma AddedIsFound(crc: Checksum, opt: Options, calls: seq<Call>, c: Call, epoch: i64, addr: Address)
    requires 1 <= opt.valLen <= 4096 && Acceptable(opt, |AcceptedOf(opt, calls)|, c)
    requires SameHost(c.addr, addr)
    ensures LogOk(opt, AcceptedOf(opt, calls + [c]))
    ensures var m := BuildMap(opt, AcceptedOf(opt, calls + [c]), epoch);
            && Geometry(m)
            && var r := Open(crc, Write(crc, m)); r.Accepted? && Lookup(r.m, addr) == Some(c.val)
  {
    AnyCallsEndToEnd(crc, opt, calls + [c], epoch, addr);
    AcceptsExactly(opt, calls, c);
    SameHostSameKey(c.addr, addr);
    LastIsWinner(AcceptedOf(opt, calls), Rec(KeyOf(c.addr).value, c.val));
  }

  lemma LastIsWinner(log: Log, r: Rec)
    ensures r.key in LastWins(log + [r]) && LastWins(log + [r])[r.key] == r.val
  {
    LastOneWins(log + [r], |log|);
  }

  /** Two spellings of one host: the same address, or a 32-bit one and its 4-in-6 form. */
  ghost predicate SameHost(a: Address, b: Address) {
    || a == b
    || (a.V4? && b == V6([0, 0, 0, 0, 0, 0, 0, 0, 0, 0, 0xFF, 0xFF] + a.b4, ""))
    || (b.V4? && a == V6([0, 0, 0, 0, 0, 0, 0, 0, 0, 0, 0xFF, 0xFF] + b.b4, ""))
  }

  lemma SameHostSameKey(a: Address, b: Address)
    requires SameHost(a, b)
    ensures KeyOf(a) == KeyOf(b)
  {
    if a.V4? {
      SpellingsAgree(a.b4);
    } else if b.V4? {
      SpellingsAgree(b.b4);
    }
  }

  // ---- accounting ----

  /** The keys of one family. */
  ghost function KeysIn(log: Log, six: bool): set<Key> {
    set k | k in LastWins(log) && k.Key6? == six
  }

  ghost predicate Numbered(ks: set<Key>, x: nat) {
    exists k :: k in ks && Number(k) == x
  }

  ghost predicate Numbers(ks: set<Key>, six: bool, a: seq<nat>) {
    && (forall k :: k in ks ==> k.Key6? == six && Number(k) in a)
    && forall i :: 0 <= i < |a| ==> Numbered(ks, a[i])
  }

  /** A set of keys of one family and an ascending list of their numbers have the same size. */
  lemma {:induction false} NumbersCount(ks: set<Key>, six: bool, a: seq<nat>)
    requires StrictlyAscending(a) && Numbers(ks, six, a)
    ensures |ks| == |a|
    decreases |a|
  {
    if a == [] {
      assert forall k :: k in ks ==> Number(k) in a;
      assert ks == {};
    } else {
      var n := |a| - 1;
      assert Numbered(ks, a[n]);
      var k :| k in ks && Number(k) == a[n];
      var rest := ks - {k};
      RestNumbers(ks, six, a, k);
      NumbersCount(rest, six, a[..n]);
      assert ks == rest + {k};
    }
  }

  lemma RestNumbers(ks: set<Key>, six: bool, a: seq<nat>, k: Key)
    requires StrictlyAscending(a) && Numbers(ks, six, a) && a != [] && k in ks && Number(k) == a[|a| - 1]
    ensures Numbers(ks - {k}, six, a[..|a| - 1])
  {
    var n := |a| - 1;
    forall j | j in ks - {k} ensures Number(j) in a[..n] {
      NumberIsInjective(j, k);
      var p :| 0 <= p < |a| && a[p] == Number(j);
      assert a[..n][p] == a[p];
    }
    forall i | 0 <= i < n ensures Numbered(ks - {k}, a[..n][i]) {
      assert Numbered(ks, a[i]);
      var j :| j in ks && Number(j) == a[i];
      assert j in ks - {k} && Number(j) == a[..n][i];
    }
  }

  lemma KeptNumbers(log: Log, six: bool)
    requires Capped(log)
    ensures Numbers(KeysIn(log, six), six, Keys(KeptOf(log, six)))
  {
    var kept := KeptOf(log, six);
    var a := Keys(kept);
    forall k | k in KeysIn(log, six) ensures Number(k) in a {
      var w := WinnerKept(log, k);
      var p :| 0 <= p < |kept| && kept[p] == w;
      assert a[p] == Number(k);
    }
    forall i | 0 <= i < |a| ensures Numbered(KeysIn(log, six), a[i]) {
      KeptWins(log, six, kept[i]);
      assert log[SeqOf(kept[i])].key in KeysIn(log, six);
    }
  }

  lemma KeptCountsKeys(log: Log, six: bool)
    requires Capped(log)
    ensures |KeptOf(log, six)| == |KeysIn(log, six)|
  {
    KeptFacts(log, six);
    KeptNumbers(log, six);
    NumbersCount(KeysIn(log, six), six, Keys(KeptOf(log, six)));
  }

  lemma FamiliesCountKeys(log: Log)
    ensures |LastWins(log)| == |KeysIn(log, false)| + |KeysIn(log, true)|
  {
    assert LastWins(log).Keys == KeysIn(log, false) + KeysIn(log, true);
  }

  /** The address counts are the numbers of distinct addresses added, and Dups is every Add beyond one per address. */
  lemma CountsAreDistinctAddresses(opt: Options, log: Log, epoch: i64)
    requires Capped(log)
    ensures var s := BuildMap(opt, log, epoch).stats;
            && s.addrs4 == |KeysIn(log, false)| && s.addrs6 == |KeysIn(log, true)|
            && s.dups == |log| - |LastWins(log)|
            && s.dupConflicts == |set i: nat | i < |log| && Differs(log, i)|
  {
    KeptCountsKeys(log, false);
    KeptCountsKeys(log, true);
    FamiliesCountKeys(log);
    BuildCounts(opt, log, epoch);
    LostAddsCounts(log);
  }

  /** The values ever added. */
  ghost function ValuesIn(log: Log): set<Value> {
    set r | r in log :: r.val
  }

  lemma ValuesInPush(log: Log, r: Rec)
    ensures ValuesIn(log + [r]) == ValuesIn(log) + {r.val}
  {
    assert forall x :: x in log + [r] <==> x in log || x == r;
  }

  lemma {:induction false} TableListsValues(log: Log)
    ensures (forall v :: v in Table(log) <==> v in ValuesIn(log)) && |Table(log)| == |ValuesIn(log)|
  {
    if log == [] {
      assert ValuesIn(log) == {};
    } else {
      var n := |log| - 1;
      var v, before := log[n].val, ValuesIn(log[..n]);
      TableListsValues(log[..n]);
      ValuesInPush(log[..n], log[n]);
      assert log == log[..n] + [log[n]];
      assert v in before ==> before + {v} == before;
    }
  }

  /** Distinct counts every value ever added, superseded or not, in interned mode, and is zero otherwise. */
  lemma DistinctCountsValues(opt: Options, log: Log, epoch: i64)
    requires Capped(log)
    ensures BuildMap(opt, log, epoch).stats.distinct == if opt.intern then |ValuesIn(log)| else 0
  {
    TableListsValues(log);
  }
}
