/**
 * The builder's view of a log: one number per entry, the address over the 32-bit sequence number, sorted,
 * with only the last entry of each address's run kept.
 */
module Survivors {
  import opened Words
  import opened Addr
  import opened History
  import opened Sorting
  import opened Groups

  /** The address of an entry word. */
  function AddrOf(w: nat): nat { w / 0x1_0000_0000 }

  /** The sequence number of an entry word. */
  function SeqOf(w: nat): (s: nat)
    ensures s < 0x1_0000_0000
  {
    w % 0x1_0000_0000
  }

  function Word(a: nat, s: nat): (w: nat)
    requires s < 0x1_0000_0000
    ensures AddrOf(w) == a && SeqOf(w) == s
  {
    a * 0x1_0000_0000 + s
  }

  function Number(k: Key): nat {
    match k
    case Key4(ip) => ip
    case Key6(a) => Num(a)
  }

  /** The number determines the key within its family. */
  lemma NumberIsInjective(k: Key, k': Key)
    requires k.Key6? == k'.Key6?
    ensures Number(k) == Number(k') <==> k == k'
  {
    if k.Key6? {
      LessIsNumeric(k.a, k'.a);
    }
  }

  /** Sequence numbers fit 32 bits, as Add's cap demands. */
  ghost predicate Capped(log: Log) {
    |log| <= MAX_U32
  }

  /** The entry words of one family, in the order they were added. */
  ghost function WordsOf(log: Log, six: bool): (ws: seq<nat>)
    requires Capped(log)
  {
    if log == [] then []
    else
      var n := |log| - 1;
      if log[n].key.Key6? == six then WordsOf(log[..n], six) + [Word(Number(log[n].key), n)]
      else WordsOf(log[..n], six)
  }

  lemma {:induction false} WordsAre(log: Log, six: bool, w: nat)
    requires Capped(log)
    ensures w in WordsOf(log, six) <==>
            SeqOf(w) < |log| && log[SeqOf(w)].key.Key6? == six && AddrOf(w) == Number(log[SeqOf(w)].key)
  {
    if log != [] {
      var n := |log| - 1;
      WordsAre(log[..n], six, w);
      if SeqOf(w) == n && AddrOf(w) == Number(log[n].key) {
        assert w == Word(Number(log[n].key), n);
      }
    }
  }

  lemma {:induction false} WordsCount(log: Log)
    requires Capped(log)
    ensures |WordsOf(log, false)| + |WordsOf(log, true)| == |log|
  {
    if log != [] {
      WordsCount(log[..|log| - 1]);
    }
  }

  lemma {:induction false} WordsDistinct(log: Log, six: bool, i: nat, j: nat)
    requires Capped(log) && i < j < |WordsOf(log, six)|
    ensures WordsOf(log, six)[i] != WordsOf(log, six)[j]
  {
    var n := |log| - 1;
    var init := WordsOf(log[..n], six);
    if j < |init| {
      WordsDistinct(log[..n], six, i, j);
    } else {
      WordsAre(log[..n], six, init[i]);
    }
  }

  /** Sorted words are strictly ascending: no two entries share a sequence number. */
  lemma SortedWordsAscend(log: Log, six: bool)
    requires Capped(log)
    ensures StrictlyAscending(Sort(WordsOf(log, six)))
  {
    var ws := WordsOf(log, six);
    var s := Sort(ws);
    SortSorts(ws);
    forall i, j | 0 <= i < j < |s| ensures s[i] < s[j] {
      if s[i] == s[j] {
        RepeatInSeq(s, i, j);
        var x := s[i];
        assert multiset(ws)[x] >= 2;
        var p, q := TwoPositions(ws, x);
        WordsDistinct(log, six, p, q);
      }
    }
  }

  lemma RepeatInSeq(s: seq<nat>, i: nat, j: nat)
    requires i < j < |s| && s[i] == s[j]
    ensures multiset(s)[s[i]] >= 2
  {
    assert s == s[..i] + [s[i]] + s[i + 1..j] + [s[j]] + s[j + 1..];
  }

  lemma {:induction false} TwoPositions(s: seq<nat>, x: nat) returns (p: nat, q: nat)
    requires multiset(s)[x] >= 2
    ensures p < q < |s| && s[p] == x && s[q] == x
  {
    var n: int := |s| - 1;
    assert s == s[..n] + [s[n]];
    if s[n] == x {
      assert x in s[..n];
      p :| 0 <= p < n && s[p] == x;
      q := n;
    } else {
      p, q := TwoPositions(s[..n], x);
    }
  }

  /** The last entry of every run of equal addresses. */
  function Kept(ws: seq<nat>): (k: seq<nat>)
    ensures |k| <= |ws|
    ensures ws != [] ==> k != []
  {
    if |ws| <= 1 then ws
    else if AddrOf(ws[0]) == AddrOf(ws[1]) then Kept(ws[1..])
    else [ws[0]] + Kept(ws[1..])
  }

  lemma {:induction false} KeptSubset(ws: seq<nat>, w: nat)
    requires w in Kept(ws)
    ensures w in ws
  {
    if |ws| > 1 && !(AddrOf(ws[0]) != AddrOf(ws[1]) && w == ws[0]) {
      KeptSubset(ws[1..], w);
    }
  }

  /** A word is kept exactly when no later word has its address. */
  lemma {:induction false} KeptAre(ws: seq<nat>, i: nat)
    requires StrictlyAscending(ws) && i < |ws|
    ensures ws[i] in Kept(ws) <==> forall j :: i < j < |ws| ==> AddrOf(ws[j]) != AddrOf(ws[i])
  {
    if |ws| > 1 {
      var rest := ws[1..];
      if i > 0 {
        KeptAre(rest, i - 1);
        assert forall j :: i < j < |ws| ==> ws[j] == rest[j - 1];
      } else {
        if ws[0] in Kept(rest) {
          KeptSubset(rest, ws[0]);
        }
        if AddrOf(ws[0]) != AddrOf(ws[1]) {
          forall j | 0 < j < |ws| ensures AddrOf(ws[j]) != AddrOf(ws[0]) {
            assert ws[1] <= ws[j];
          }
        }
      }
    }
  }

  /** The kept words' addresses are strictly ascending. */
  lemma {:induction false} KeptAscends(ws: seq<nat>)
    requires StrictlyAscending(ws)
    ensures forall i, j :: 0 <= i < j < |Kept(ws)| ==> AddrOf(Kept(ws)[i]) < AddrOf(Kept(ws)[j])
    ensures StrictlyAscending(Kept(ws))
  {
    if |ws| > 1 {
      var rest := ws[1..];
      KeptAscends(rest);
      var k := Kept(rest);
      if AddrOf(ws[0]) != AddrOf(ws[1]) {
        forall j | 0 <= j < |k| ensures AddrOf(ws[0]) < AddrOf(k[j]) {
          KeptSubset(rest, k[j]);
          assert ws[1] <= k[j];
        }
      }
    }
  }

  /** The entries of one family that a build keeps. */
  ghost function KeptOf(log: Log, six: bool): (k: seq<nat>)
    requires Capped(log)
  {
    Kept(Sort(WordsOf(log, six)))
  }

  /** A kept entry is a recorded Add of its address, and it is the one that wins. */
  lemma KeptWins(log: Log, six: bool, w: nat)
    requires Capped(log) && w in KeptOf(log, six)
    ensures SeqOf(w) < |log| && log[SeqOf(w)].key.Key6? == six && AddrOf(w) == Number(log[SeqOf(w)].key)
    ensures var r := log[SeqOf(w)]; r.key in LastWins(log) && LastWins(log)[r.key] == r.val
  {
    var s := Sort(WordsOf(log, six));
    SortedWordsAscend(log, six);
    KeptSubset(s, w);
    SortMembers(WordsOf(log, six), w);
    WordsAre(log, six, w);
    var i := SeqOf(w);
    forall j | i < j < |log| ensures log[j].key != log[i].key {
      if log[j].key == log[i].key {
        LaterIsNotKept(log, six, w, j);
      }
    }
    LastOneWins(log, i);
  }

  lemma LaterIsNotKept(log: Log, six: bool, w: nat, j: nat)
    requires Capped(log) && w in Sort(WordsOf(log, six)) && StrictlyAscending(Sort(WordsOf(log, six)))
    requires SeqOf(w) < j < |log| && log[j].key.Key6? == six && Number(log[j].key) == AddrOf(w)
    ensures w !in KeptOf(log, six)
  {
    var s := Sort(WordsOf(log, six));
    var v := Word(AddrOf(w), j);
    WordsAre(log, six, v);
    SortMembers(WordsOf(log, six), v);
    var p :| 0 <= p < |s| && s[p] == w;
    var q :| 0 <= q < |s| && s[q] == v;
    assert w < v;
    assert p < q;
    KeptAre(s, p);
  }

  /** Every key that was added has a kept entry. */
  lemma WinnerKept(log: Log, k: Key) returns (w: nat)
    requires Capped(log) && k in LastWins(log)
    ensures w in KeptOf(log, k.Key6?) && AddrOf(w) == Number(k)
  {
    LastWinsKeys(log, k);
    var i :| 0 <= i < |log| && log[i].key == k;
    w := Word(Number(k), LastIndex(log, k, i));
    var s := Sort(WordsOf(log, k.Key6?));
    WordsAre(log, k.Key6?, w);
    SortMembers(WordsOf(log, k.Key6?), w);
    SortedWordsAscend(log, k.Key6?);
    var p :| 0 <= p < |s| && s[p] == w;
    forall q | p < q < |s| ensures AddrOf(s[q]) != AddrOf(w) {
      SortMembers(WordsOf(log, k.Key6?), s[q]);
      WordsAre(log, k.Key6?, s[q]);
      assert s[p] < s[q];
      if AddrOf(s[q]) == AddrOf(w) {
        NumberIsInjective(log[SeqOf(s[q])].key, k);
      }
    }
    KeptAre(s, p);
  }

  /** The last index holding key `k`, at or after `i`. */
  ghost function LastIndex(log: Log, k: Key, i: nat): (l: nat)
    requires i < |log| && log[i].key == k
    ensures i <= l < |log| && log[l].key == k
    ensures forall j :: l < j < |log| ==> log[j].key != k
    decreases |log| - i
  {
    if j: int :| i < j < |log| && log[j].key == k then LastIndex(log, k, j) else i
  }
}
