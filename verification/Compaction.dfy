/** build4 and build6: the loops over the sorted entries, in place on their array, and the comparison of values. */
module Compaction {
  import opened Words
  import opened LittleEndian
  import opened Addr
  import opened History
  import opened Sorting
  import opened Survivors
  import opened Accounting
  import opened Dedupe
  import opened Layout

  /** A 128-bit address and the sequence number of its Add. */
  datatype Entry6 = Entry6(a: Addr6, vi: u32)

  function Word6(e: Entry6): nat {
    Word(Num(e.a), e.vi)
  }

  function Words6(es: seq<Entry6>): (ws: seq<nat>)
    ensures |ws| == |es| && forall i :: 0 <= i < |es| ==> ws[i] == Word6(es[i])
  {
    seq(|es|, i requires 0 <= i < |es| => Word6(es[i]))
  }

  /** The comparison build6 sorts by. */
  function Compare6(x: Entry6, y: Entry6): int {
    if Less(x.a, y.a) then -1
    else if Less(y.a, x.a) then 1
    else if x.vi < y.vi then -1
    else if x.vi > y.vi then 1
    else 0
  }

  /** It is the order of the entry words. */
  lemma CompareIsWordOrder(x: Entry6, y: Entry6)
    ensures Compare6(x, y) <= 0 <==> Word6(x) <= Word6(y)
  {
    LessIsNumeric(x.a, y.a);
    LessIsNumeric(y.a, x.a);
  }

  function Insert6(x: Entry6, s: seq<Entry6>): (r: seq<Entry6>)
    ensures |r| == |s| + 1
  {
    if s == [] || Compare6(x, s[0]) <= 0 then [x] + s else [s[0]] + Insert6(x, s[1..])
  }

  /** slices.SortFunc by `Compare6`. */
  function Sort6(s: seq<Entry6>): (r: seq<Entry6>)
    ensures |r| == |s|
  {
    if s == [] then [] else Insert6(s[|s| - 1], Sort6(s[..|s| - 1]))
  }

  lemma {:induction false} Insert6Words(x: Entry6, s: seq<Entry6>)
    ensures Words6(Insert6(x, s)) == Insert(Word6(x), Words6(s))
  {
    if s != [] {
      CompareIsWordOrder(x, s[0]);
      Insert6Words(x, s[1..]);
      assert Words6(s)[1..] == Words6(s[1..]);
    }
  }

  lemma {:induction false} Sort6Words(s: seq<Entry6>)
    ensures Words6(Sort6(s)) == Sort(Words6(s))
  {
    if s != [] {
      var init := s[..|s| - 1];
      Sort6Words(init);
      Insert6Words(s[|s| - 1], Sort6(init));
      assert Words6(s)[..|s| - 1] == Words6(init);
    }
  }

  /** The values in Add order, as one byte string. */
  ghost function AllValues(log: Log): (vs: seq<Value>)
    ensures |vs| == |log| && forall i :: 0 <= i < |log| ==> vs[i] == log[i].val
  {
    seq(|log|, i requires 0 <= i < |log| => log[i].val)
  }

  /** The Builder's value fields: every value, or the table and the id of each Add. */
  datatype Fields = Fields(opt: Options, vals: seq<byte>, tab: seq<byte>, ids: seq<u32>)

  /** The fields hold Add `i`'s value: as its id, or as its bytes. */
  ghost predicate RecordsAt(f: Fields, log: Log, i: nat)
    requires i < |log|
  {
    if f.opt.intern then i < |f.ids| && f.ids[i] == IdOf(log, i)
    else SlotIs(f.vals, f.opt.valLen, i, log[i].val)
  }

  /** The fields hold row `id` of the intern table. */
  ghost predicate RowAt(f: Fields, log: Log, id: nat) {
    && |f.tab| == |Table(log)| * f.opt.valLen
    && (id < |Table(log)| ==> SlotIs(f.tab, f.opt.valLen, id, Table(log)[id]))
  }

  /** The fields record the values of the log. */
  ghost predicate Records(f: Fields, log: Log) {
    && LogOk(f.opt, log)
    && (forall i: nat :: i < |log| ==> RecordsAt(f, log, i))
    && (f.opt.intern ==> forall id: nat :: RowAt(f, log, id))
  }

  /**
   * The two values added at these sequence numbers are equal; interned mode answers by id. The 32-bit sums that end
   * the two slices never wrap.
   */
  predicate SameVal(f: Fields, ghost log: Log, vi: nat, vj: nat)
    requires Records(f, log) && vi < |log| && vj < |log|
    ensures SameVal(f, log, vi, vj) <==> log[vi].val == log[vj].val
  {
    assert RecordsAt(f, log, vi) && RecordsAt(f, log, vj);
    if f.opt.intern then f.ids[vi] == f.ids[vj]
    else
      var w, i: u32, j: u32 := f.opt.valLen, vi + 1, vj + 1;
      NextRow(vi, w);
      NextRow(vj, w);
      f.vals[vi * w..i * w] == f.vals[vj * w..j * w]
  }

  /** Walks to the last entry of the run of equal addresses that starts at `i`. */
  method RunEnd4(a: array<u64>, i: nat, ghost ws: seq<nat>) returns (j: nat)
    requires i < a.Length == |ws| && a[i..] == ws[i..]
    ensures Run(ws, i, j)
  {
    j := i;
    while j + 1 < a.Length && AddrOf(a[j + 1]) == AddrOf(a[j])
      invariant i <= j < a.Length
      invariant forall t :: i <= t <= j ==> AddrOf(ws[t]) == AddrOf(ws[j])
    {
      assert a[i..][j + 1 - i] == ws[j + 1] && a[i..][j - i] == ws[j];
      j := j + 1;
    }
    assert a[i..][j - i] == ws[j] && (j + 1 < a.Length ==> a[i..][j + 1 - i] == ws[j + 1]);
  }

  /** Counts a run's dropped entries, and those whose value differs from the survivor's. */
  method CountRun4(f: Fields, ghost log: Log, a: array<u64>, i: nat, j: nat, ghost ws: seq<nat>)
    returns (dups: nat, confl: nat)
    requires Records(f, log) && i <= j < a.Length == |ws| && a[i..] == ws[i..]
    requires AllRecorded(log, ws)
    ensures dups == j - i && confl == Differing(log, ws, i, j, j)
  {
    assert a[i..][j - i] == ws[j];
    dups, confl := 0, 0;
    var k := i;
    while k < j
      invariant i <= k <= j && dups == k - i
      invariant confl == Differing(log, ws, i, k, j)
    {
      assert a[i..][k - i] == ws[k];
      dups := dups + 1;
      if !SameVal(f, log, SeqOf(a[k]), SeqOf(a[j])) {
        confl := confl + 1;
      }
      k := k + 1;
    }
  }

  /** A run's last entry moves to the write position; the others are counted. */
  method MoveRun4(f: Fields, ghost log: Log, a: array<u64>, i: nat, kept: nat, ghost ws: seq<nat>)
    returns (j: nat, d: nat, c: nat)
    requires Records(f, log) && AllRecorded(log, ws)
    requires kept <= i < a.Length == |ws| && a[i..] == ws[i..]
    modifies a
    ensures Run(ws, i, j) && d == j - i && c == Differing(log, ws, i, j, j)
    ensures a[j + 1..] == ws[j + 1..] && a[..kept + 1] == old(a[..kept]) + [ws[j]]
  {
    j := RunEnd4(a, i, ws);
    d, c := CountRun4(f, log, a, i, j, ws);
    StoreSurvivor4(a, kept, i, j, ws);
  }

  /** One round of the dedupe loop. */
  method TakeRun4(f: Fields, ghost log: Log, a: array<u64>, i: nat, kept: nat, dups: nat, confl: nat,
                  ghost ws: seq<nat>, ghost lost: nat -> bool, ghost out: seq<nat>)
    returns (i': nat, dups': nat, confl': nat, ghost out': seq<nat>)
    requires Records(f, log) && Judges(lost, log, ws) && Passed(lost, ws, i, out, dups, confl)
    requires kept <= i < a.Length == |ws| && a[i..] == ws[i..] && a[..kept] == out
    modifies a
    ensures Passed(lost, ws, i', out', dups', confl')
    ensures i < i' <= a.Length && a[i'..] == ws[i'..] && a[..kept + 1] == out'
  {
    var j, d, c := MoveRun4(f, log, a, i, kept, ws);
    PassedRun(lost, log, ws, i, j, out, dups, confl, d, c);
    i', dups', confl', out' := j + 1, dups + d, confl + c, out + [ws[j]];
  }

  /**
   * The dedupe loop of build4: compacts the sorted words into the front of their own array. The write position
   * never passes the read position, so no unread entry is overwritten.
   */
  method Dedupe4(f: Fields, ghost log: Log, a: array<u64>, ghost ws: seq<nat>, ghost lost: nat -> bool)
    returns (kept: nat, dups: nat, confl: nat)
    requires a[..] == ws && Records(f, log) && Judges(lost, log, ws)
    modifies a
    ensures kept <= a.Length && a[..kept] == Kept(ws)
    ensures dups == a.Length - kept && confl == Count(lost, ws)
  {
    ghost var out: seq<nat> := [];
    PassedStart(lost, ws);
    kept, dups, confl := 0, 0, 0;
    var i := 0;
    while i < a.Length
      invariant kept <= i <= a.Length && a[i..] == ws[i..]
      invariant a[..kept] == out
      invariant Passed(lost, ws, i, out, dups, confl)
    {
      i, dups, confl, out := TakeRun4(f, log, a, i, kept, dups, confl, ws, lost, out);
      kept := kept + 1;
    }
    PassedEnd(lost, ws, out, dups, confl);
  }

  method StoreSurvivor4(a: array<u64>, kept: nat, i: nat, j: nat, ghost ws: seq<nat>)
    requires kept <= i <= j < a.Length == |ws| && a[i..] == ws[i..]
    modifies a
    ensures a[..kept + 1] == old(a[..kept]) + [ws[j]] && a[j + 1..] == ws[j + 1..]
  {
    assert a[i..][j - i] == ws[j];
    assert a[j + 1..] == a[i..][j + 1 - i..];
    a[kept] := a[j];
  }

  /** The same loops over 128-bit entries. */
  method RunEnd6(a: array<Entry6>, i: nat, ghost es: seq<Entry6>) returns (j: nat)
    requires i < a.Length == |es| && a[i..] == es[i..]
    ensures Run(Words6(es), i, j)
  {
    j := i;
    while j + 1 < a.Length && a[j + 1].a == a[j].a
      invariant i <= j < a.Length
      invariant forall t :: i <= t <= j ==> es[t].a == es[j].a
    {
      assert a[i..][j + 1 - i] == es[j + 1] && a[i..][j - i] == es[j];
      j := j + 1;
    }
    assert a[i..][j - i] == es[j] && (j + 1 < a.Length ==> a[i..][j + 1 - i] == es[j + 1]);
    SameAddressRun(es, i, j);
  }

  predicate Differ6(f: Fields, ghost log: Log, ghost es: seq<Entry6>, ghost t: nat, ghost j: nat, x: Entry6, y: Entry6)
    requires Records(f, log) && t < |es| && j < |es| && AllRecorded(log, Words6(es)) && x == es[t] && y == es[j]
    ensures Differ6(f, log, es, t, j, x, y) <==> DifferAt(log, Words6(es), t, j)
  {
    assert SeqOf(Words6(es)[t]) == x.vi && SeqOf(Words6(es)[j]) == y.vi;
    !SameVal(f, log, x.vi, y.vi)
  }

  method CountRun6(f: Fields, ghost log: Log, a: array<Entry6>, i: nat, j: nat, ghost es: seq<Entry6>)
    returns (dups: nat, confl: nat)
    requires Records(f, log) && i <= j < a.Length == |es| && a[i..] == es[i..] && AllRecorded(log, Words6(es))
    ensures dups == j - i && confl == Differing(log, Words6(es), i, j, j)
  {
    assert a[i..][j - i] == es[j];
    dups, confl := 0, 0;
    var k := i;
    while k < j
      invariant i <= k <= j && dups == k - i
      invariant confl == Differing(log, Words6(es), i, k, j)
    {
      assert a[i..][k - i] == es[k];
      dups := dups + 1;
      if Differ6(f, log, es, k, j, a[k], a[j]) {
        confl := confl + 1;
      }
      k := k + 1;
    }
  }

  lemma PassedRun6(lost: nat -> bool, log: Log, es: seq<Entry6>, i: nat, j: nat, out: seq<Entry6>,
                   dups: nat, confl: nat, d: nat, c: nat)
    requires Passed(lost, Words6(es), i, Words6(out), dups, confl)
    requires Judges(lost, log, Words6(es)) && Run(Words6(es), i, j)
    requires d == j - i && c == Differing(log, Words6(es), i, j, j)
    ensures Passed(lost, Words6(es), j + 1, Words6(out + [es[j]]), dups + d, confl + c)
  {
    PassedRun(lost, log, Words6(es), i, j, Words6(out), dups, confl, d, c);
    assert Words6(out + [es[j]]) == Words6(out) + [Words6(es)[j]];
  }

  /** A run's last entry moves to the write position; the others are counted. */
  method MoveRun6(f: Fields, ghost log: Log, a: array<Entry6>, i: nat, kept: nat, ghost es: seq<Entry6>)
    returns (j: nat, d: nat, c: nat)
    requires Records(f, log) && AllRecorded(log, Words6(es))
    requires kept <= i < a.Length == |es| && a[i..] == es[i..]
    modifies a
    ensures Run(Words6(es), i, j) && d == j - i && c == Differing(log, Words6(es), i, j, j)
    ensures a[j + 1..] == es[j + 1..] && a[..kept + 1] == old(a[..kept]) + [es[j]]
  {
    j := RunEnd6(a, i, es);
    d, c := CountRun6(f, log, a, i, j, es);
    StoreSurvivor6(a, kept, i, j, es);
  }

  /** One round of the dedupe loop. */
  method TakeRun6(f: Fields, ghost log: Log, a: array<Entry6>, i: nat, kept: nat, dups: nat, confl: nat,
                  ghost es: seq<Entry6>, ghost lost: nat -> bool, ghost out: seq<Entry6>)
    returns (i': nat, dups': nat, confl': nat, ghost out': seq<Entry6>)
    requires Records(f, log) && Judges(lost, log, Words6(es)) && Passed(lost, Words6(es), i, Words6(out), dups, confl)
    requires kept <= i < a.Length == |es| && a[i..] == es[i..] && a[..kept] == out
    modifies a
    ensures Passed(lost, Words6(es), i', Words6(out'), dups', confl')
    ensures i < i' <= a.Length && a[i'..] == es[i'..] && a[..kept + 1] == out'
  {
    var j, d, c := MoveRun6(f, log, a, i, kept, es);
    PassedRun6(lost, log, es, i, j, out, dups, confl, d, c);
    i', dups', confl', out' := j + 1, dups + d, confl + c, out + [es[j]];
  }

  method Dedupe6(f: Fields, ghost log: Log, a: array<Entry6>, ghost es: seq<Entry6>, ghost lost: nat -> bool)
    returns (kept: nat, dups: nat, confl: nat)
    requires a[..] == es && Records(f, log) && Judges(lost, log, Words6(es))
    modifies a
    ensures kept <= a.Length && Words6(a[..kept]) == Kept(Words6(es))
    ensures dups == a.Length - kept && confl == Count(lost, Words6(es))
  {
    ghost var out: seq<Entry6> := [];
    assert Words6(out) == [];
    PassedStart(lost, Words6(es));
    kept, dups, confl := 0, 0, 0;
    var i := 0;
    while i < a.Length
      invariant kept <= i <= a.Length && a[i..] == es[i..]
      invariant a[..kept] == out
      invariant Passed(lost, Words6(es), i, Words6(out), dups, confl)
    {
      i, dups, confl, out := TakeRun6(f, log, a, i, kept, dups, confl, es, lost, out);
      kept := kept + 1;
    }
    PassedEnd(lost, Words6(es), Words6(out), dups, confl);
  }

  method StoreSurvivor6(a: array<Entry6>, kept: nat, i: nat, j: nat, ghost es: seq<Entry6>)
    requires kept <= i <= j < a.Length == |es| && a[i..] == es[i..]
    modifies a
    ensures a[..kept + 1] == old(a[..kept]) + [es[j]] && a[j + 1..] == es[j + 1..]
  {
    assert a[i..][j - i] == es[j];
    assert a[j + 1..] == a[i..][j + 1 - i..];
    a[kept] := a[j];
  }

  lemma SameAddressRun(es: seq<Entry6>, i: nat, j: nat)
    requires i <= j < |es| && (forall t :: i <= t <= j ==> es[t].a == es[j].a)
    requires j + 1 < |es| ==> es[j + 1].a != es[j].a
    ensures Run(Words6(es), i, j)
  {
    if j + 1 < |es| {
      LessIsNumeric(es[j + 1].a, es[j].a);
    }
  }
}
