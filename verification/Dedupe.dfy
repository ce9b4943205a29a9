/** What the dedupe loops of both families maintain: the runs passed so far, compacted, and their counts. */
module Dedupe {
  import opened History
  import opened Sorting
  import opened Groups
  import opened Survivors
  import opened Accounting

  /** The first `i` sorted entries: `out` holds their survivors, `confl` counts those of them that `lost` holds of. */
  ghost predicate Passed(lost: nat -> bool, ws: seq<nat>, i: nat, out: seq<nat>, dups: nat, confl: nat) {
    && |out| <= i <= |ws|
    && out + Kept(ws[i..]) == Kept(ws)
    && dups == i - |out|
    && confl == Count(lost, ws[..i])
  }

  lemma PassedStart(lost: nat -> bool, ws: seq<nat>)
    ensures Passed(lost, ws, 0, [], 0, 0)
  {
    assert ws[0..] == ws && [] + Kept(ws) == Kept(ws);
  }

  lemma PassedEnd(lost: nat -> bool, ws: seq<nat>, out: seq<nat>, dups: nat, confl: nat)
    requires Passed(lost, ws, |ws|, out, dups, confl)
    ensures out == Kept(ws) && dups == |ws| - |Kept(ws)| && confl == Count(lost, ws)
  {
    assert ws[|ws|..] == [] && ws[..|ws|] == ws && out + [] == out;
  }

  ghost predicate EndsRun(ws: seq<nat>, j: nat) {
    j < |ws| && (j + 1 < |ws| ==> AddrOf(ws[j + 1]) != AddrOf(ws[j]))
  }

  /** The entries i..j are of one address, and j is its last. */
  ghost predicate Run(ws: seq<nat>, i: nat, j: nat) {
    && EndsRun(ws, j) && i <= j
    && forall t :: i <= t <= j ==> AddrOf(ws[t]) == AddrOf(ws[j])
  }

  lemma {:induction false} KeptOfRun(ws: seq<nat>, i: nat, j: nat)
    requires Run(ws, i, j)
    ensures Kept(ws[i..]) == [ws[j]] + Kept(ws[j + 1..])
    decreases j - i
  {
    var s := ws[i..];
    assert s == [ws[i]] + ws[i + 1..];
    if i < j {
      assert AddrOf(ws[i]) == AddrOf(ws[i + 1]);
      KeptOfRun(ws, i + 1, j);
    } else if j + 1 == |ws| {
      assert ws[j + 1..] == [];
    }
  }

  ghost predicate AllRecorded(log: Log, ws: seq<nat>) {
    forall k :: 0 <= k < |ws| ==> SeqOf(ws[k]) < |log|
  }

  /** The values of entries `t` and `j` differ. */
  ghost predicate DifferAt(log: Log, ws: seq<nat>, t: nat, j: nat)
    requires AllRecorded(log, ws) && t < |ws| && j < |ws|
  {
    log[SeqOf(ws[t])].val != log[SeqOf(ws[j])].val
  }

  /** The entries of i..t whose values differ from entry j's. */
  ghost function Differing(log: Log, ws: seq<nat>, i: nat, t: nat, j: nat): nat
    requires AllRecorded(log, ws) && i <= t <= j < |ws|
    decreases t
  {
    if t == i then 0 else Differing(log, ws, i, t - 1, j) + if DifferAt(log, ws, t - 1, j) then 1 else 0
  }

  /** An entry is lost exactly when its value differs from that of the last entry of its run. */
  ghost predicate Judges(lost: nat -> bool, log: Log, ws: seq<nat>) {
    && AllRecorded(log, ws)
    && forall t: nat, j: nat :: t <= j < |ws| ==> JudgesAt(lost, log, ws, t, j)
  }

  ghost predicate JudgesAt(lost: nat -> bool, log: Log, ws: seq<nat>, t: nat, j: nat)
    requires AllRecorded(log, ws) && t <= j < |ws|
  {
    EndsRun(ws, j) && AddrOf(ws[t]) == AddrOf(ws[j]) ==> (lost(ws[t]) <==> DifferAt(log, ws, t, j))
  }

  lemma {:induction false} DifferingCounts(lost: nat -> bool, log: Log, ws: seq<nat>, i: nat, t: nat, j: nat)
    requires Judges(lost, log, ws) && Run(ws, i, j) && i <= t <= j
    ensures Count(lost, ws[..t]) == Count(lost, ws[..i]) + Differing(log, ws, i, t, j)
    decreases t
  {
    if t > i {
      DifferingCounts(lost, log, ws, i, t - 1, j);
      CountNext(lost, ws, t - 1);
      assert JudgesAt(lost, log, ws, t - 1, j);
    }
  }

  lemma CountNext(lost: nat -> bool, ws: seq<nat>, j: nat)
    requires j < |ws|
    ensures Count(lost, ws[..j + 1]) == Count(lost, ws[..j]) + if lost(ws[j]) then 1 else 0
  {
    assert ws[..j + 1][..j] == ws[..j];
  }

  lemma RunKept(ws: seq<nat>, i: nat, j: nat, out: seq<nat>)
    requires Run(ws, i, j) && out + Kept(ws[i..]) == Kept(ws)
    ensures out + [ws[j]] + Kept(ws[j + 1..]) == Kept(ws)
  {
    KeptOfRun(ws, i, j);
    assert out + ([ws[j]] + Kept(ws[j + 1..])) == out + [ws[j]] + Kept(ws[j + 1..]);
  }

  /** One run more: its last entry is kept, the others are dropped. */
  lemma PassedRun(lost: nat -> bool, log: Log, ws: seq<nat>, i: nat, j: nat, out: seq<nat>,
                  dups: nat, confl: nat, d: nat, c: nat)
    requires Passed(lost, ws, i, out, dups, confl) && Judges(lost, log, ws) && Run(ws, i, j)
    requires d == j - i && c == Differing(log, ws, i, j, j)
    ensures Passed(lost, ws, j + 1, out + [ws[j]], dups + d, confl + c)
  {
    DifferingCounts(lost, log, ws, i, j, j);
    CountNext(lost, ws, j);
    assert JudgesAt(lost, log, ws, j, j);
    RunKept(ws, i, j, out);
  }

  lemma SortedRecorded(log: Log, six: bool, t: nat)
    requires Capped(log) && t < |WordsOf(log, six)|
    ensures var w := Sort(WordsOf(log, six))[t];
            SeqOf(w) < |log| && log[SeqOf(w)].key.Key6? == six && AddrOf(w) == Number(log[SeqOf(w)].key)
  {
    var w := Sort(WordsOf(log, six))[t];
    SortMembers(WordsOf(log, six), w);
    WordsAre(log, six, w);
  }

  lemma RunEndIsKept(ws: seq<nat>, j: nat)
    requires StrictlyAscending(ws) && EndsRun(ws, j)
    ensures ws[j] in Kept(ws)
  {
    forall k | j < k < |ws| ensures AddrOf(ws[k]) != AddrOf(ws[j]) {
      assert ws[j] < ws[j + 1] <= ws[k];
    }
    KeptAre(ws, j);
  }

  /** In a log's sorted entries the lost Adds are those that differ from their run's survivor. */
  lemma LogJudges(log: Log, six: bool)
    requires Capped(log)
    ensures Judges(LosesWord(log), log, Sort(WordsOf(log, six)))
  {
    var ws := Sort(WordsOf(log, six));
    forall k | 0 <= k < |ws| ensures SeqOf(ws[k]) < |log| {
      SortedRecorded(log, six, k);
    }
    forall t: nat, j: nat | t <= j < |ws| ensures JudgesAt(LosesWord(log), log, ws, t, j) {
      if EndsRun(ws, j) && AddrOf(ws[t]) == AddrOf(ws[j]) {
        LosesInRun(log, six, ws, t, j);
      }
    }
  }

  lemma LosesInRun(log: Log, six: bool, ws: seq<nat>, t: nat, j: nat)
    requires Capped(log) && ws == Sort(WordsOf(log, six)) && AllRecorded(log, ws)
    requires t <= j && EndsRun(ws, j) && AddrOf(ws[t]) == AddrOf(ws[j])
    ensures LosesWord(log)(ws[t]) <==> DifferAt(log, ws, t, j)
  {
    SortedWordsAscend(log, six);
    RunEndIsKept(ws, j);
    SortedRecorded(log, six, t);
    SortedRecorded(log, six, j);
    KeptWins(log, six, ws[j]);
    NumberIsInjective(log[SeqOf(ws[t])].key, log[SeqOf(ws[j])].key);
    assert Loses(LastWins(log))(log[SeqOf(ws[t])]) <==> DifferAt(log, ws, t, j);
  }
}
