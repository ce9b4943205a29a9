/** The Map a build lays out for a log, as functions of the kept entries, and why it answers as the log does. */
module Layout {
  import opened Words
  import opened LittleEndian
  import opened Addr
  import opened History
  import opened Groups
  import opened Survivors
  import opened Values
  import opened Store

  datatype Options = Options(valLen: nat, intern: bool)

  predicate OptionsOk(opt: Options) {
    1 <= opt.valLen <= MAX_VAL_LEN
  }

  /** Add accepts a valid, unzoned address with a value of the right width while there is room. */
  ghost predicate Accepts(opt: Options, n: nat, addr: Address, val: Value) {
    KeyOf(addr).Some? && |val| == opt.valLen && n < MAX_U32
  }

  /** Add `i` recorded a key that some address denotes. */
  ghost predicate StorableAt(log: Log, i: nat)
    requires i < |log|
  {
    Storable(log[i].key)
  }

  /** The logs that Add can have accepted. */
  ghost predicate LogOk(opt: Options, log: Log) {
    && OptionsOk(opt) && Capped(log)
    && (forall i :: 0 <= i < |log| ==> |log[i].val| == opt.valLen)
    && forall i: nat :: i < |log| ==> StorableAt(log, i)
  }

  /** One accepted Add more. */
  lemma LogPush(opt: Options, log: Log, r: Rec)
    requires LogOk(opt, log) && Storable(r.key) && |r.val| == opt.valLen && |log| < MAX_U32
    ensures LogOk(opt, log + [r])
  {
    forall i: nat | i < |log + [r]| ensures StorableAt(log + [r], i) {
      if i < |log| {
        assert StorableAt(log, i);
      }
    }
  }

  // ---- the intern table ----

  /** The distinct values in the order they first came. */
  ghost function Table(log: Log): (t: seq<Value>)
    ensures |t| <= |log|
  {
    if log == [] then []
    else
      var n := |log| - 1;
      var t := Table(log[..n]);
      if log[n].val in t then t else t + [log[n].val]
  }

  lemma {:induction false} TableHolds(log: Log, i: nat)
    requires i < |log|
    ensures log[i].val in Table(log)
  {
    var n := |log| - 1;
    if i < n {
      TableHolds(log[..n], i);
    }
  }

  lemma {:induction false} TableIsUniform(log: Log, w: nat)
    requires forall i :: 0 <= i < |log| ==> |log[i].val| == w
    ensures Uniform(Table(log), w)
  {
    if log != [] {
      TableIsUniform(log[..|log| - 1], w);
    }
  }

  /** A value's id: its row in the table. */
  ghost function RowOf(t: seq<Value>, v: Value): (id: nat)
    requires v in t
    ensures id < |t| && t[id] == v
  {
    if t[0] == v then 0 else 1 + RowOf(t[1..], v)
  }

  lemma {:induction false} RowOfPush(t: seq<Value>, x: Value, v: Value)
    requires v in t
    ensures RowOf(t + [x], v) == RowOf(t, v)
  {
    if t[0] != v {
      RowOfPush(t[1..], x, v);
      assert (t + [x])[1..] == t[1..] + [x];
    }
  }

  ghost function Distinct(opt: Options, log: Log): nat {
    if opt.intern then |Table(log)| else 0
  }

  // ---- values ----

  ghost predicate Recorded(log: Log, kept: seq<nat>) {
    forall i :: 0 <= i < |kept| ==> SeqOf(kept[i]) < |log|
  }

  /** The value of each kept entry. */
  ghost function Rows(log: Log, kept: seq<nat>): (rows: seq<Value>)
    requires Recorded(log, kept)
    ensures |rows| == |kept|
    ensures forall i :: 0 <= i < |kept| ==> rows[i] == log[SeqOf(kept[i])].val
  {
    seq(|kept|, i requires 0 <= i < |kept| => log[SeqOf(kept[i])].val)
  }

  /** The id of the value added at sequence number `i`. */
  ghost function IdOf(log: Log, i: nat): (id: nat)
    requires i < |log|
    ensures id < |Table(log)| && Table(log)[id] == log[i].val
  {
    TableHolds(log, i);
    RowOf(Table(log), log[i].val)
  }

  ghost function Ids(log: Log, kept: seq<nat>): (ids: seq<nat>)
    requires Recorded(log, kept)
    ensures |ids| == |kept|
    ensures forall i :: 0 <= i < |kept| ==> ids[i] == IdOf(log, SeqOf(kept[i]))
  {
    seq(|kept|, i requires 0 <= i < |kept| => IdOf(log, SeqOf(kept[i])))
  }

  /** newValues and setVal: each kept entry's value in its slot, or its id beside the shared table. */
  ghost function LaidValues(opt: Options, log: Log, kept: seq<nat>): Values
    requires Recorded(log, kept)
  {
    if !opt.intern then Values(opt.valLen, Concat(Rows(log, kept)), [], [], 0)
    else
      var w := IdWidth(|Table(log)|);
      Values(opt.valLen, [], Concat(Table(log)), Pack(w, Ids(log, kept)), w)
  }

  lemma LaidDirect(opt: Options, log: Log, kept: seq<nat>, i: nat)
    requires LogOk(opt, log) && Recorded(log, kept) && !opt.intern && i < |kept|
    ensures var v := LaidValues(opt, log, kept); Readable(v, i) && Get(v, i) == log[SeqOf(kept[i])].val
  {
    ConcatSlot(Rows(log, kept), opt.valLen, i);
    MulMono(1, |kept|, opt.valLen);
  }

  lemma PackedId(log: Log, kept: seq<nat>, i: nat)
    requires Capped(log) && Recorded(log, kept) && i < |kept|
    ensures var w := IdWidth(|Table(log)|);
            var b := Pack(w, Ids(log, kept));
            (i + 1) * w <= |b| && WordAt(b, w, i) == IdOf(log, SeqOf(kept[i]))
  {
    PackWord(IdWidth(|Table(log)|), Ids(log, kept), i);
  }

  lemma TableRow(opt: Options, log: Log, id: nat)
    requires LogOk(opt, log) && id < |Table(log)|
    ensures (id + 1) * opt.valLen <= |Concat(Table(log))|
    ensures Slot(Concat(Table(log)), opt.valLen, id) == Table(log)[id]
  {
    TableIsUniform(log, opt.valLen);
    ConcatSlot(Table(log), opt.valLen, id);
  }

  lemma LaidInterned(opt: Options, log: Log, kept: seq<nat>, i: nat)
    requires LogOk(opt, log) && Recorded(log, kept) && opt.intern && i < |kept|
    ensures var v := LaidValues(opt, log, kept); Readable(v, i) && Get(v, i) == log[SeqOf(kept[i])].val
    ensures var v := LaidValues(opt, log, kept); (i + 1) * v.idW <= |v.ids| && WordAt(v.ids, v.idW, i) < |Table(log)|
  {
    var v, id := LaidValues(opt, log, kept), IdOf(log, SeqOf(kept[i]));
    PackedId(log, kept, i);
    TableRow(opt, log, id);
    InternedReads(v, i, id, log[SeqOf(kept[i])].val);
  }

  /** Both layouts give back the value that was added, and are shaped as a reader demands. */
  lemma LaidValuesOk(opt: Options, log: Log, kept: seq<nat>)
    requires LogOk(opt, log) && Recorded(log, kept) && kept != []
    ensures ValuesOk(LaidValues(opt, log, kept), |kept|, opt.valLen, Distinct(opt, log))
  {
    var v := LaidValues(opt, log, kept);
    if opt.intern {
      forall i: nat | i < |kept| ensures (i + 1) * v.idW <= |v.ids| && WordAt(v.ids, v.idW, i) < |Table(log)| {
        LaidInterned(opt, log, kept, i);
      }
      TableHolds(log, SeqOf(kept[0]));
      TableIsUniform(log, opt.valLen);
      ConcatLength(Table(log), opt.valLen);
    } else {
      ConcatLength(Rows(log, kept), opt.valLen);
    }
  }

  // ---- addresses ----

  /** The addresses of the kept entries. */
  ghost function Keys(kept: seq<nat>): (a: seq<nat>)
    ensures |a| == |kept| && forall i :: 0 <= i < |kept| ==> a[i] == AddrOf(kept[i])
  {
    seq(|kept|, i requires 0 <= i < |kept| => AddrOf(kept[i]))
  }

  /** Each entry's group has the high part of the entry's address as its key. */
  ghost predicate Grouped(gkeys: seq<nat>, idx: seq<nat>, high: nat -> nat, a: seq<nat>) {
    && |idx| == |gkeys| + 1 && Spans(idx, |a|)
    && forall g: nat, j: nat :: g < |gkeys| && idx[g] <= j < idx[g + 1] && j < |a| ==> high(a[j]) == gkeys[g]
  }

  /** Entries sorted into the groups of their high parts are listed with their own addresses. */
  lemma GroupedAddresses(gkeys: seq<nat>, idx: seq<nat>, high: nat -> nat, a: seq<nat>, suffix: seq<nat>, radix: nat)
    requires Grouped(gkeys, idx, high, a) && |suffix| == |a|
    requires forall j :: 0 <= j < |a| ==> a[j] == high(a[j]) * radix + suffix[j]
    ensures Addresses(gkeys, idx, suffix, radix) == a
  {
    var r := Addresses(gkeys, idx, suffix, radix);
    forall j | 0 <= j < |a| ensures r[j] == a[j] {
      var g := GroupOf(idx, j, |idx| - 1);
      assert high(a[j]) == gkeys[g];
    }
  }

  lemma GroupedInOrder(gkeys: seq<nat>, idx: seq<u32>, high: nat -> nat, a: seq<nat>, suffix: seq<nat>,
                       radix: nat, minGroup: nat)
    requires Grouped(gkeys, idx, high, a) && |suffix| == |a| && StrictlyAscending(a)
    requires forall j :: 0 <= j < |a| ==> a[j] == high(a[j]) * radix + suffix[j]
    requires forall h: nat :: 1 <= h < |idx| ==> idx[h - 1] as int + minGroup <= idx[h] <= |a|
    ensures GroupsOk(idx, suffix, |a|, minGroup)
  {
    forall h: nat | 1 <= h < |idx| ensures GroupOk(idx, suffix, minGroup, h) {
      forall j: int | idx[h - 1] < j < idx[h] ensures StepsUp(suffix, j) {
        assert high(a[j - 1]) == gkeys[h - 1] && high(a[j]) == gkeys[h - 1];
        assert a[j - 1] < a[j];
      }
    }
  }

  // ---- the 32-bit index ----

  /** The /24 group of an entry. */
  function Top(w: nat): nat { w / 0x100_0000_0000 }

  function Low8(w: nat): byte { AddrOf(w) % 0x100 }

  function Low64(w: nat): u64 { AddrOf(w) % 0x1_0000_0000_0000_0000 }

  function High64(w: nat): nat { AddrOf(w) / 0x1_0000_0000_0000_0000 }

  /** How many entries' groups are below `g`. */
  ghost function Below(ws: seq<nat>, g: nat): (c: nat)
    ensures c <= |ws|
  {
    if ws == [] then 0
    else
      var n := |ws| - 1;
      Below(ws[..n], g) + if Top(ws[n]) < g then 1 else 0
  }

  /** In a sorted run the entries of groups below `g` are exactly the first `Below(ws, g)`. */
  lemma {:induction false} BelowSplits(ws: seq<nat>, g: nat, i: nat)
    requires StrictlyAscending(ws) && i < |ws|
    ensures i < Below(ws, g) <==> Top(ws[i]) < g
  {
    var n := |ws| - 1;
    if Top(ws[n]) < g {
      BelowAll(ws, g);
      assert ws[i] <= ws[n];
    } else if i < n {
      BelowSplits(ws[..n], g, i);
    }
  }

  lemma {:induction false} BelowAll(ws: seq<nat>, g: nat)
    requires forall i :: 0 <= i < |ws| ==> Top(ws[i]) < g
    ensures Below(ws, g) == |ws|
  {
    if ws != [] {
      BelowAll(ws[..|ws| - 1], g);
    }
  }

  lemma {:induction false} BelowRises(ws: seq<nat>, g: nat, h: nat)
    requires g <= h
    ensures Below(ws, g) <= Below(ws, h)
  {
    if ws != [] {
      BelowRises(ws[..|ws| - 1], g, h);
    }
  }

  lemma {:induction false} BelowNone(ws: seq<nat>)
    ensures Below(ws, 0) == 0
  {
    if ws != [] {
      BelowNone(ws[..|ws| - 1]);
    }
  }

  /** The 32-bit index: at `g`, how many kept entries have a group below `g`. */
  ghost function Index4(kept: seq<nat>): (idx: seq<u32>)
    requires |kept| <= MAX_U32
    ensures |idx| == GROUPS4 + 1 && forall g :: 0 <= g <= GROUPS4 ==> idx[g] == Below(kept, g)
  {
    seq(GROUPS4 + 1, g requires 0 <= g <= GROUPS4 => Below(kept, g))
  }

  ghost function Suffix4(kept: seq<nat>): (s: seq<byte>)
    ensures |s| == |kept| && forall i :: 0 <= i < |kept| ==> s[i] == Low8(kept[i])
  {
    seq(|kept|, i requires 0 <= i < |kept| => Low8(kept[i]))
  }

  ghost function Suffix6(kept: seq<nat>): (s: seq<u64>)
    ensures |s| == |kept| && forall i :: 0 <= i < |kept| ==> s[i] == Low64(kept[i])
  {
    seq(|kept|, i requires 0 <= i < |kept| => Low64(kept[i]))
  }

  /** Kept entries of one family, as a build finds them. */
  ghost predicate KeptOk(kept: seq<nat>) {
    |kept| <= MAX_U32 && StrictlyAscending(kept) && StrictlyAscending(Keys(kept))
  }

  /** Entry `i` lies in [idx[g], idx[g+1]) for its own group `g`, so filling slot after slot needs no cursor. */
  lemma OwnGroup4(kept: seq<nat>, i: nat)
    requires KeptOk(kept) && i < |kept| && Top(kept[i]) < GROUPS4
    ensures var idx, g := Index4(kept), Top(kept[i]); idx[g] <= i < idx[g + 1]
  {
    BelowSplits(kept, Top(kept[i]), i);
    BelowSplits(kept, Top(kept[i]) + 1, i);
  }

  /** The /24 of a 32-bit address. */
  ghost function Slash24(): nat -> nat {
    (a: nat) => a / 0x100
  }

  lemma Index4Grouped(kept: seq<nat>)
    requires KeptOk(kept) && forall i :: 0 <= i < |kept| ==> Top(kept[i]) < GROUPS4
    ensures Grouped(Identity(GROUPS4), Index4(kept), Slash24(), Keys(kept))
  {
    var idx := Index4(kept);
    BelowNone(kept);
    BelowAll(kept, GROUPS4);
    forall g: nat, j: nat | g < GROUPS4 && idx[g] <= j < idx[g + 1] && j < |kept|
      ensures Keys(kept)[j] / 0x100 == g
    {
      BelowSplits(kept, g, j);
      BelowSplits(kept, g + 1, j);
      assert Top(kept[j]) == g;
    }
  }

  /** The 32-bit layout is in order and lists exactly the kept addresses. */
  lemma Layout4Ok(kept: seq<nat>)
    requires KeptOk(kept) && forall i :: 0 <= i < |kept| ==> Top(kept[i]) < GROUPS4
    ensures GroupsOk(Index4(kept), Suffix4(kept), |kept|, 0)
    ensures Spans(Index4(kept), |kept|)
    ensures Addresses(Identity(GROUPS4), Index4(kept), Suffix4(kept), 0x100) == Keys(kept)
  {
    var idx := Index4(kept);
    Index4Grouped(kept);
    forall h: nat | 1 <= h < |idx| ensures idx[h - 1] <= idx[h] <= |kept| {
      BelowRises(kept, h - 1, h);
    }
    GroupedInOrder(Identity(GROUPS4), idx, Slash24(), Keys(kept), Suffix4(kept), 0x100, 0);
    GroupedAddresses(Identity(GROUPS4), idx, Slash24(), Keys(kept), Suffix4(kept), 0x100);
  }

  // ---- the 128-bit prefix table ----

  /** The distinct high words in order. */
  ghost function Prefixes(kept: seq<nat>): (p: seq<nat>)
    ensures |p| <= |kept|
  {
    if kept == [] then []
    else
      var n := |kept| - 1;
      if n == 0 || High64(kept[n - 1]) != High64(kept[n]) then Prefixes(kept[..n]) + [High64(kept[n])]
      else Prefixes(kept[..n])
  }

  /** Where the run of each high word starts. */
  ghost function Starts(kept: seq<nat>): (s: seq<nat>)
    ensures |s| == |Prefixes(kept)|
    ensures forall g :: 0 <= g < |s| ==> s[g] < |kept|
  {
    if kept == [] then []
    else
      var n := |kept| - 1;
      if n == 0 || High64(kept[n - 1]) != High64(kept[n]) then Starts(kept[..n]) + [n]
      else Starts(kept[..n])
  }

  ghost function Index6(kept: seq<nat>): (idx: seq<u32>)
    requires |kept| <= MAX_U32
    ensures |idx| == |Prefixes(kept)| + 1
  {
    var s := Starts(kept);
    seq(|s| + 1, g requires 0 <= g <= |s| => if g < |s| then s[g] else |kept|)
  }

  /** The high word of an address. */
  ghost function HighPart(): nat -> nat {
    (a: nat) => a / 0x1_0000_0000_0000_0000
  }

  ghost predicate StrictlyRising(idx: seq<nat>) {
    forall h :: 1 <= h < |idx| ==> idx[h - 1] < idx[h]
  }

  /** Runs start at zero, are non-empty, share their high word, and the high words ascend. */
  ghost predicate RunsOk(kept: seq<nat>, p: seq<nat>, idx: seq<nat>) {
    && Grouped(p, idx, HighPart(), Keys(kept))
    && StrictlyRising(idx)
    && StrictlyAscending(p)
    && (if kept == [] then p == [] else p != [] && p[|p| - 1] == High64(kept[|kept| - 1]))
  }

  lemma NewRun(init: seq<nat>, w: nat, p: seq<nat>, idx: seq<nat>)
    requires RunsOk(init, p, idx)
    requires init != [] ==> High64(init[|init| - 1]) < High64(w)
    ensures RunsOk(init + [w], p + [High64(w)], idx + [|init| + 1])
  {
    var kept, p', idx' := init + [w], p + [High64(w)], idx + [|init| + 1];
    forall g: nat, j: nat | g < |p'| && idx'[g] <= j < idx'[g + 1] && j < |kept|
      ensures HighPart()(Keys(kept)[j]) == p'[g]
    {
      if g < |p| {
        assert j < |init| ==> Keys(kept)[j] == Keys(init)[j];
        RisingEnds(idx, g + 1);
      }
    }
  }

  lemma {:induction false} RisingEnds(idx: seq<nat>, g: nat)
    requires StrictlyRising(idx) && g < |idx|
    ensures idx[g] <= idx[|idx| - 1]
    decreases |idx| - g
  {
    if g + 1 < |idx| {
      RisingEnds(idx, g + 1);
    }
  }

  lemma LongerRun(init: seq<nat>, w: nat, p: seq<nat>, idx: seq<nat>)
    requires RunsOk(init, p, idx) && init != [] && High64(init[|init| - 1]) == High64(w)
    ensures RunsOk(init + [w], p, idx[..|p|] + [|init| + 1])
  {
    var kept, idx' := init + [w], idx[..|p|] + [|init| + 1];
    forall g: nat, j: nat | g < |p| && idx'[g] <= j < idx'[g + 1] && j < |kept|
      ensures HighPart()(Keys(kept)[j]) == p[g]
    {
      if g + 1 < |p| {
        RisingEnds(idx, g + 1);
      }
      if j < |init| {
        assert Keys(kept)[j] == Keys(init)[j];
      }
    }
  }

  ghost predicate StartsRun(kept: seq<nat>, i: nat)
    requires i < |kept|
  {
    i == 0 || High64(kept[i - 1]) != High64(kept[i])
  }

  /** How the prefix table grows by one entry. */
  lemma TableStep(kept: seq<nat>)
    requires kept != [] && |kept| <= MAX_U32
    ensures var n := |kept| - 1;
            var p, idx := Prefixes(kept[..n]), Index6(kept[..n]);
            if StartsRun(kept, n) then Prefixes(kept) == p + [High64(kept[n])] && Index6(kept) == idx + [n + 1]
            else Prefixes(kept) == p && Index6(kept) == idx[..|p|] + [n + 1]
  {
  }

  lemma {:induction false} RunsAre(kept: seq<nat>)
    requires KeptOk(kept)
    ensures RunsOk(kept, Prefixes(kept), Index6(kept))
  {
    if kept != [] {
      var n := |kept| - 1;
      var init := kept[..n];
      KeptInit(kept);
      RunsAre(init);
      RunsStep(kept, Prefixes(init), Index6(init));
      TableStep(kept);
    }
  }

  lemma RunsStep(kept: seq<nat>, p: seq<nat>, idx: seq<nat>)
    requires KeptOk(kept) && kept != [] && RunsOk(kept[..|kept| - 1], p, idx)
    ensures var n := |kept| - 1;
            if StartsRun(kept, n) then RunsOk(kept, p + [High64(kept[n])], idx + [n + 1])
            else RunsOk(kept, p, idx[..|p|] + [n + 1])
  {
    var n := |kept| - 1;
    var init, w := kept[..n], kept[n];
    assert init + [w] == kept;
    if StartsRun(kept, n) {
      if n > 0 {
        assert Keys(kept)[n - 1] < Keys(kept)[n];
      }
      NewRun(init, w, p, idx);
    } else {
      LongerRun(init, w, p, idx);
    }
  }

  lemma KeptInit(kept: seq<nat>)
    requires KeptOk(kept) && kept != []
    ensures KeptOk(kept[..|kept| - 1])
  {
    var init := kept[..|kept| - 1];
    assert forall i :: 0 <= i < |init| ==> Keys(init)[i] == Keys(kept)[i];
  }

  /** The 128-bit layout is in order and lists exactly the kept addresses. */
  lemma Layout6Ok(kept: seq<nat>)
    requires KeptOk(kept)
    ensures GroupsOk(Index6(kept), Suffix6(kept), |kept|, 1)
    ensures Spans(Index6(kept), |kept|) && StrictlyAscending(Prefixes(kept))
    ensures Addresses(Prefixes(kept), Index6(kept), Suffix6(kept), 0x1_0000_0000_0000_0000) == Keys(kept)
  {
    var p, idx := Prefixes(kept), Index6(kept);
    RunsAre(kept);
    forall h: nat | 1 <= h < |idx| ensures idx[h - 1] as int + 1 <= idx[h] <= |kept| {
      assert idx[h - 1] < idx[h];
      RisingEnds(idx, h);
    }
    GroupedInOrder(p, idx, HighPart(), Keys(kept), Suffix6(kept), 0x1_0000_0000_0000_0000, 1);
    GroupedAddresses(p, idx, HighPart(), Keys(kept), Suffix6(kept), 0x1_0000_0000_0000_0000);
  }
}
