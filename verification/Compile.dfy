/** build4 and build6: from the entries added to the two stores. */
module Compile {
  import opened Words
  import opened LittleEndian
  import opened Addr
  import opened History
  import opened Sorting
  import opened Survivors
  import opened Accounting
  import opened Dedupe
  import opened Values
  import opened Store
  import opened Layout
  import opened BuildSpec
  import opened DenseIndex
  import opened Compaction
  import opened Fill

  lemma SortedFit(s: seq<u64>)
    ensures forall i :: 0 <= i < |s| ==> Sort(s)[i] < 0x1_0000_0000_0000_0000
  {
    forall i | 0 <= i < |s| ensures Sort(s)[i] < 0x1_0000_0000_0000_0000 {
      SortMembers(s, Sort(s)[i]);
    }
  }

  /** The sorted words in an array of their own. */
  method SortWords(v4: seq<u64>) returns (a: array<u64>)
    ensures fresh(a) && a[..] == Sort(v4)
  {
    var sorted := Sort(v4);
    SortedFit(v4);
    a := new u64[|sorted|](i requires 0 <= i < |sorted| => sorted[i]);
  }

  method SortEntries(v6: seq<Entry6>) returns (a: array<Entry6>)
    ensures fresh(a) && Words6(a[..]) == Sort(Words6(v6))
  {
    var sorted := Sort6(v6);
    a := new Entry6[|sorted|](i requires 0 <= i < |sorted| => sorted[i]);
    assert a[..] == sorted;
    Sort6Words(v6);
  }

  /** The low bytes so far. */
  ghost predicate BytesAre(suffix: seq<byte>, kept: seq<nat>, i: nat) {
    i <= |kept| == |suffix| && forall k :: 0 <= k < i ==> suffix[k] == Low8(kept[k])
  }

  /** One entry's low byte and value. */
  method FillSlot4(f: Fields, ghost log: Log, e: u64, i: nat, suffix: array<byte>, buf: array<byte>, w: nat,
                   ghost kept: seq<nat>, ghost rows: seq<seq<byte>>)
    requires Records(f, log) && SlotsFor(f, log, w, kept, rows) && i < |kept| && e == kept[i] && suffix != buf
    requires BytesAre(suffix[..], kept, i) && Filled(buf[..], rows, w, i)
    modifies suffix, buf
    ensures BytesAre(suffix[..], kept, i + 1) && Filled(buf[..], rows, w, i + 1)
  {
    suffix[i] := Low8(e);
    SlotFitsIn(i, |kept|, w);
    ghost var before := buf[..];
    assert SlotFor(f, log, w, kept[i], rows[i]);
    SetVal(f, log, buf, w, i, SeqOf(e), kept[i], rows[i]);
    FilledStep(before, buf[..], rows, w, i);
  }

  /** Suffix bytes and values of the kept 32-bit entries, slot after slot. */
  method Fill4(f: Fields, ghost log: Log, a: array<u64>, n: nat, suffix: array<byte>, buf: array<byte>, w: nat,
               ghost kept: seq<nat>, ghost rows: seq<seq<byte>>)
    requires Records(f, log) && SlotsFor(f, log, w, kept, rows) && n <= a.Length && a[..n] == kept
    requires suffix.Length == n && buf.Length == n * w && suffix != buf
    modifies suffix, buf
    ensures BytesAre(suffix[..], kept, n) && buf[..] == Concat(rows)
  {
    FilledStart(buf[..], rows, w);
    var i := 0;
    while i < n
      invariant 0 <= i <= n && a[..n] == kept
      invariant BytesAre(suffix[..], kept, i)
      invariant Filled(buf[..], rows, w, i)
    {
      assert a[i] == kept[i];
      FillSlot4(f, log, a[i], i, suffix, buf, w, kept, rows);
      i := i + 1;
    }
    FilledEnd(buf[..], rows, w);
  }

  /** The sort and the compaction: the kept entries first in the array, with the counts. */
  method Survivors4(f: Fields, ghost log: Log, v4: seq<u64>)
    returns (a: array<u64>, kept: nat, dups: nat, confl: nat)
    requires Records(f, log) && v4 == WordsOf(log, false)
    ensures kept <= a.Length && a[..kept] == KeptOf(log, false)
    ensures dups == DroppedIn(log, false) && confl == ConflictsIn(log, false)
  {
    a := SortWords(v4);
    LogJudges(log, false);
    kept, dups, confl := Dedupe4(f, log, a, Sort(v4), LosesWord(log));
  }

  method Build4(f: Fields, ghost log: Log, v4: seq<u64>, distinct: nat)
    returns (s: Store4, addrs: nat, dups: nat, confl: nat)
    requires Records(f, log) && v4 == WordsOf(log, false) && (f.opt.intern ==> distinct == |Table(log)|)
    ensures s == Built4(f.opt, log) && addrs == |KeptOf(log, false)|
    ensures dups == DroppedIn(log, false) && confl == ConflictsIn(log, false)
  {
    var a;
    a, addrs, dups, confl := Survivors4(f, log, v4);
    if addrs == 0 {
      return EMPTY4, addrs, dups, confl;
    }
    s := Lay4(f, log, a, addrs, distinct);
  }

  /** The counting pass and the prefix sums. */
  method IndexOf4(a: array<u64>, n: nat) returns (idx: array<u32>)
    requires n <= a.Length && n <= MAX_U32
    ensures fresh(idx) && idx[..] == Index4(a[..n]) && a[..] == old(a[..])
  {
    idx := new u32[GROUPS4 + 1](_ => 0);
    CountGroups(a, n, idx);
    SumGroups(idx, a[..n]);
  }

  /** The suffixes and values of the kept entries. */
  method Values4(f: Fields, ghost log: Log, a: array<u64>, n: nat, distinct: nat, ghost kept: seq<nat>)
    returns (suffix: seq<byte>, vals: Values)
    requires Records(f, log) && Recorded(log, kept) && n <= a.Length && a[..n] == kept
    requires f.opt.intern ==> distinct == |Table(log)|
    ensures suffix == Suffix4(kept) && vals == LaidValues(f.opt, log, kept)
  {
    var low := new byte[n](_ => 0);
    var buf, w := NewValues(f, log, distinct, n);
    ghost var rows := SlotRows(f, log, w, kept);
    Fill4(f, log, a, n, low, buf, w, kept, rows);
    vals := Freeze(f, log, buf, w, kept, rows);
    suffix := low[..];
  }

  method Lay4(f: Fields, ghost log: Log, a: array<u64>, n: nat, distinct: nat) returns (s: Store4)
    requires Records(f, log) && 0 < n <= a.Length && a[..n] == KeptOf(log, false)
    requires f.opt.intern ==> distinct == |Table(log)|
    ensures s == Built4(f.opt, log)
  {
    KeptFacts(log, false);
    ghost var kept := KeptOf(log, false);
    var idx := IndexOf4(a, n);
    var suffix, vals := Values4(f, log, a, n, distinct, kept);
    s := Store4(idx[..], suffix, vals);
  }

  /** One entry's low word and value. */
  method FillSlot6(f: Fields, ghost log: Log, e: Entry6, i: nat, suffix: array<u64>, buf: array<byte>, w: nat,
                   ghost kept: seq<nat>, ghost rows: seq<seq<byte>>)
    requires Records(f, log) && SlotsFor(f, log, w, kept, rows) && i < |kept| && IsWord(e, kept[i])
    requires LowsAre(suffix[..], kept, i) && Filled(buf[..], rows, w, i)
    modifies suffix, buf
    ensures LowsAre(suffix[..], kept, i + 1) && Filled(buf[..], rows, w, i + 1)
  {
    suffix[i] := e.a.lo;
    SlotFitsIn(i, |kept|, w);
    ghost var before := buf[..];
    assert SlotFor(f, log, w, kept[i], rows[i]);
    SetVal(f, log, buf, w, i, e.vi, kept[i], rows[i]);
    FilledStep(before, buf[..], rows, w, i);
  }

  /** The word's parts are the entry's. */
  ghost predicate IsWord(e: Entry6, w: nat) {
    High64(w) == e.a.hi && Low64(w) == e.a.lo && SeqOf(w) == e.vi
  }

  ghost predicate AreWords(es: seq<Entry6>, kept: seq<nat>) {
    |es| == |kept| && forall i: nat :: i < |es| ==> IsWord(es[i], kept[i])
  }

  lemma WordsAreWords(es: seq<Entry6>)
    ensures AreWords(es, Words6(es))
  {
    forall i: nat | i < |es| ensures IsWord(es[i], Words6(es)[i]) {
      LessIsNumeric(es[i].a, es[i].a);
    }
  }

  /** The prefix table as it stands after `i` entries. */
  ghost predicate TableIs(prefix: seq<u64>, pidx: seq<u32>, kept: seq<nat>, i: nat) {
    i <= |kept| && prefix == Prefixes(kept[..i]) && pidx == Starts(kept[..i])
  }

  /** An entry whose high word is new starts a run. */
  method GrowTable(prefix: seq<u64>, pidx: seq<u32>, a: array<Entry6>, i: nat,
                   ghost es: seq<Entry6>, ghost kept: seq<nat>)
    returns (prefix': seq<u64>, pidx': seq<u32>)
    requires i < |es| <= a.Length && a[..|es|] == es && i <= MAX_U32
    requires AreWords(es, kept) && TableIs(prefix, pidx, kept, i)
    ensures TableIs(prefix', pidx', kept, i + 1)
  {
    prefix', pidx' := prefix, pidx;
    assert a[i] == es[i] && (i > 0 ==> a[i - 1] == es[i - 1]);
    assert IsWord(es[i], kept[i]) && (i > 0 ==> IsWord(es[i - 1], kept[i - 1]));
    TableGrows(kept, i);
    if i == 0 || a[i - 1].a.hi != a[i].a.hi {
      prefix' := prefix + [a[i].a.hi];
      pidx' := pidx + [i];
    }
  }

  lemma TableDone(prefix: seq<u64>, pidx: seq<u32>, kept: seq<nat>)
    requires |kept| <= MAX_U32 && TableIs(prefix, pidx, kept, |kept|)
    ensures prefix == Prefixes(kept) && pidx + [|kept|] == Index6(kept)
  {
    assert kept[..|kept|] == kept;
  }

  /** The low words so far. */
  ghost predicate LowsAre(suffix: seq<u64>, kept: seq<nat>, i: nat) {
    i <= |kept| == |suffix| && forall k :: 0 <= k < i ==> suffix[k] == Low64(kept[k])
  }

  /** Prefix table, low words and values of the kept 128-bit entries. */
  method Fill6(f: Fields, ghost log: Log, a: array<Entry6>, n: nat, suffix: array<u64>, buf: array<byte>, w: nat,
               ghost es: seq<Entry6>, ghost kept: seq<nat>, ghost rows: seq<seq<byte>>)
    returns (prefix: seq<u64>, pidx: seq<u32>)
    requires Records(f, log) && SlotsFor(f, log, w, kept, rows) && AreWords(es, kept)
    requires n <= a.Length && n <= MAX_U32 && a[..n] == es && suffix.Length == n && buf.Length == n * w
    modifies suffix, buf
    ensures LowsAre(suffix[..], kept, n) && buf[..] == Concat(rows) && TableIs(prefix, pidx, kept, n)
  {
    FilledStart(buf[..], rows, w);
    TableStart(kept);
    prefix, pidx := [], [];
    var i := 0;
    while i < n
      invariant 0 <= i <= n && a[..n] == es
      invariant LowsAre(suffix[..], kept, i)
      invariant Filled(buf[..], rows, w, i)
      invariant TableIs(prefix, pidx, kept, i)
    {
      prefix, pidx := GrowTable(prefix, pidx, a, i, es, kept);
      assert a[i] == es[i] && IsWord(es[i], kept[i]);
      FillSlot6(f, log, a[i], i, suffix, buf, w, kept, rows);
      i := i + 1;
    }
    FilledEnd(buf[..], rows, w);
  }

  lemma TableStart(kept: seq<nat>)
    ensures TableIs([], [], kept, 0)
  {
    assert kept[..0] == [];
  }

  lemma TableGrows(kept: seq<nat>, i: nat)
    requires i < |kept|
    ensures var p, s := Prefixes(kept[..i]), Starts(kept[..i]);
            if i == 0 || High64(kept[i - 1]) != High64(kept[i])
            then Prefixes(kept[..i + 1]) == p + [High64(kept[i])] && Starts(kept[..i + 1]) == s + [i]
            else Prefixes(kept[..i + 1]) == p && Starts(kept[..i + 1]) == s
  {
    assert kept[..i + 1][..i] == kept[..i];
  }

  /** The prefix table, suffixes and values of the kept entries. */
  method Values6(f: Fields, ghost log: Log, a: array<Entry6>, n: nat, distinct: nat, ghost kept: seq<nat>)
    returns (prefix: seq<u64>, pidx: seq<u32>, suffix: seq<u64>, vals: Values)
    requires Records(f, log) && Recorded(log, kept) && n <= a.Length && n <= MAX_U32 && Words6(a[..n]) == kept
    requires f.opt.intern ==> distinct == |Table(log)|
    ensures prefix == Prefixes(kept) && pidx == Index6(kept) && suffix == Suffix6(kept)
    ensures vals == LaidValues(f.opt, log, kept)
  {
    var low := new u64[n](_ => 0);
    var buf, w := NewValues(f, log, distinct, n);
    ghost var rows := SlotRows(f, log, w, kept);
    WordsAreWords(a[..n]);
    prefix, pidx := Fill6(f, log, a, n, low, buf, w, a[..n], kept, rows);
    vals := Freeze(f, log, buf, w, kept, rows);
    TableDone(prefix, pidx, kept);
    pidx := pidx + [n];
    suffix := low[..];
  }

  method Build6(f: Fields, ghost log: Log, v6: seq<Entry6>, distinct: nat)
    returns (s: Store6, addrs: nat, dups: nat, confl: nat)
    requires Records(f, log) && Words6(v6) == WordsOf(log, true) && (f.opt.intern ==> distinct == |Table(log)|)
    ensures s == Built6(f.opt, log) && addrs == |KeptOf(log, true)|
    ensures dups == DroppedIn(log, true) && confl == ConflictsIn(log, true)
  {
    var a := SortEntries(v6);
    LogJudges(log, true);
    addrs, dups, confl := Dedupe6(f, log, a, a[..], LosesWord(log));
    s := Lay6(f, log, a, addrs, distinct);
  }

  method Lay6(f: Fields, ghost log: Log, a: array<Entry6>, n: nat, distinct: nat) returns (s: Store6)
    requires Records(f, log) && n <= a.Length && Words6(a[..n]) == KeptOf(log, true)
    requires f.opt.intern ==> distinct == |Table(log)|
    ensures s == Built6(f.opt, log)
  {
    KeptFacts(log, true);
    var prefix, pidx, suffix, vals := Values6(f, log, a, n, distinct, KeptOf(log, true));
    s := Store6(prefix, pidx, suffix, vals);
  }

  /** Build: both families, with the counts added up. */
  method BuildBoth(f: Fields, ghost log: Log, v4: seq<u64>, v6: seq<Entry6>, distinct: nat, epoch: i64) returns (m: Map)
    requires Records(f, log) && v4 == WordsOf(log, false) && Words6(v6) == WordsOf(log, true)
    requires distinct == Distinct(f.opt, log)
    ensures m == BuildMap(f.opt, log, epoch)
  {
    var s4, n4, dups4, confl4 := Build4(f, log, v4, distinct);
    var s6, n6, dups6, confl6 := Build6(f, log, v6, distinct);
    m := Map(s4, s6, f.opt.valLen, epoch, Stats(n4, n6, dups4 + dups6, confl4 + confl6, distinct));
  }
}
