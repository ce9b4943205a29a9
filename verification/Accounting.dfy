/** How many Adds were dropped, and how many of those carried another value than the survivor. */
module Accounting {
  import opened Words
  import opened Addr
  import opened History
  import opened Sorting
  import opened Survivors

  ghost function Count<T(!new)>(p: T -> bool, s: seq<T>): (c: nat)
    ensures c <= |s|
  {
    if s == [] then 0 else Count(p, s[..|s| - 1]) + if p(s[|s| - 1]) then 1 else 0
  }

  lemma {:induction false} CountConcat<T(!new)>(p: T -> bool, s: seq<T>, t: seq<T>)
    ensures Count(p, s + t) == Count(p, s) + Count(p, t)
  {
    if t == [] {
      assert s + t == s;
    } else {
      CountConcat(p, s, t[..|t| - 1]);
      assert (s + t)[..|s + t| - 1] == s + t[..|t| - 1];
    }
  }

  lemma {:induction false} CountRemove<T(!new)>(p: T -> bool, t: seq<T>, i: nat)
    requires i < |t|
    ensures Count(p, t) == Count(p, t[..i] + t[i + 1..]) + if p(t[i]) then 1 else 0
  {
    var n := |t| - 1;
    var r := t[..i] + t[i + 1..];
    if i == n {
      assert r == t[..n];
    } else {
      CountRemove(p, t[..n], i);
      assert r[..n - 1] == t[..n][..i] + t[..n][i + 1..];
    }
  }

  lemma WithoutOne<T>(t: seq<T>, i: nat)
    requires i < |t|
    ensures multiset(t[..i] + t[i + 1..]) == multiset(t) - multiset{t[i]}
  {
    assert t == t[..i] + ([t[i]] + t[i + 1..]);
  }

  lemma {:induction false} CountPermutes<T(!new)>(p: T -> bool, s: seq<T>, t: seq<T>)
    requires multiset(s) == multiset(t)
    ensures Count(p, s) == Count(p, t)
    decreases |s|
  {
    if s == [] {
      assert |multiset(t)| == 0;
      assert t == [];
    } else {
      var n := |s| - 1;
      assert s[n] in multiset(t);
      var i :| 0 <= i < |t| && t[i] == s[n];
      CountRemove(p, s, n);
      CountRemove(p, t, i);
      WithoutOne(s, n);
      WithoutOne(t, i);
      assert s[..n] + s[n + 1..] == s[..n];
      CountPermutes(p, s[..n], t[..i] + t[i + 1..]);
    }
  }

  /** A record whose value is not the one the map holds for its key. */
  ghost function Loses(m: map<Key, Value>): Rec -> bool {
    (r: Rec) => r.key !in m || m[r.key] != r.val
  }

  /** The Adds whose value was lost to a later Add of the same key. */
  ghost function LostAdds(log: Log): nat {
    Count(Loses(LastWins(log)), log)
  }

  ghost function Where<T(!new)>(p: T -> bool, s: seq<T>): set<nat> {
    set i: nat | i < |s| && p(s[i])
  }

  lemma {:induction false} CountIsWhere<T(!new)>(p: T -> bool, s: seq<T>)
    ensures Count(p, s) == |Where(p, s)|
  {
    if s != [] {
      var n: nat := |s| - 1;
      CountIsWhere(p, s[..n]);
      if p(s[n]) {
        assert Where(p, s) == Where(p, s[..n]) + {n};
      } else {
        assert Where(p, s) == Where(p, s[..n]);
      }
    }
  }

  /** `LostAdds` counts exactly the indices whose value differs from the surviving one. */
  lemma LostAddsCounts(log: Log)
    ensures LostAdds(log) == |set i: nat | i < |log| && Differs(log, i)|
  {
    CountIsWhere(Loses(LastWins(log)), log);
    var lost := set i: nat | i < |log| && Differs(log, i);
    forall i: nat ensures i in lost <==> i in Where(Loses(LastWins(log)), log) {
      if i < |log| {
        KeyWins(log, i);
      }
    }
    assert lost == Where(Loses(LastWins(log)), log);
  }

  /** The entry words of lost Adds. */
  ghost function LosesWord(log: Log): nat -> bool {
    (w: nat) => SeqOf(w) < |log| && Loses(LastWins(log))(log[SeqOf(w)])
  }

  lemma {:induction false} WordsLoseAlike(log: Log, n: nat)
    requires Capped(log) && n <= |log|
    ensures Count(LosesWord(log), WordsOf(log[..n], false)) + Count(LosesWord(log), WordsOf(log[..n], true))
         == Count(Loses(LastWins(log)), log[..n])
  {
    if n > 0 {
      WordsLoseAlike(log, n - 1);
      assert log[..n][..n - 1] == log[..n - 1];
      var six := log[n - 1].key.Key6?;
      var w := Word(Number(log[n - 1].key), n - 1);
      assert WordsOf(log[..n], six) == WordsOf(log[..n - 1], six) + [w];
      assert WordsOf(log[..n], !six) == WordsOf(log[..n - 1], !six);
      CountConcat(LosesWord(log), WordsOf(log[..n - 1], six), [w]);
      assert [w][..0] == [];
      assert LosesWord(log)(w) == Loses(LastWins(log))(log[n - 1]);
    }
  }

  /** Entries of one family dropped by the last-wins rule, and those of them that carried another value. */
  ghost function DroppedIn(log: Log, six: bool): (d: nat)
    requires Capped(log)
  {
    |WordsOf(log, six)| - |KeptOf(log, six)|
  }

  ghost function ConflictsIn(log: Log, six: bool): nat
    requires Capped(log)
  {
    Count(LosesWord(log), Sort(WordsOf(log, six)))
  }

  /** Every Add is kept or dropped, and the conflicts of both families are the lost Adds. */
  lemma AddsAreConserved(log: Log)
    requires Capped(log)
    ensures |KeptOf(log, false)| + |KeptOf(log, true)| + (DroppedIn(log, false) + DroppedIn(log, true)) == |log|
    ensures ConflictsIn(log, false) + ConflictsIn(log, true) == LostAdds(log)
  {
    WordsCount(log);
    WordsLoseAlike(log, |log|);
    assert log[..|log|] == log;
    SortSorts(WordsOf(log, false));
    SortSorts(WordsOf(log, true));
    CountPermutes(LosesWord(log), Sort(WordsOf(log, false)), WordsOf(log, false));
    CountPermutes(LosesWord(log), Sort(WordsOf(log, true)), WordsOf(log, true));
  }

  lemma KeptNeverLoses(log: Log, six: bool, w: nat)
    requires Capped(log) && w in KeptOf(log, six)
    ensures !LosesWord(log)(w)
  {
    KeptWins(log, six, w);
    var r := log[SeqOf(w)];
    assert !Loses(LastWins(log))(r);
  }

  lemma {:induction false} LosersAreDropped(log: Log, ws: seq<nat>)
    requires forall w :: w in Kept(ws) ==> !LosesWord(log)(w)
    ensures Count(LosesWord(log), ws) + |Kept(ws)| <= |ws|
  {
    var p := LosesWord(log);
    if |ws| == 1 {
      assert ws[..0] == [] && ws[0] in Kept(ws);
    } else if |ws| > 1 {
      assert ws == [ws[0]] + ws[1..];
      CountConcat(p, [ws[0]], ws[1..]);
      assert [ws[0]][..0] == [];
      forall w | w in Kept(ws[1..]) ensures !p(w) {
        assert w in Kept(ws);
      }
      LosersAreDropped(log, ws[1..]);
      if AddrOf(ws[0]) != AddrOf(ws[1]) {
        assert ws[0] in Kept(ws);
      }
    }
  }

  /** Only dropped entries conflict, so a build never reports more conflicts than drops. */
  lemma ConflictsWithinDrops(log: Log, six: bool)
    requires Capped(log)
    ensures ConflictsIn(log, six) <= DroppedIn(log, six)
  {
    forall w | w in KeptOf(log, six) ensures !LosesWord(log)(w) {
      KeptNeverLoses(log, six, w);
    }
    LosersAreDropped(log, Sort(WordsOf(log, six)));
  }
}
