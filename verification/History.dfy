/** The plain meaning of a run of Adds: a log of accepted records, of which the last one for a key wins. */
module History {
  import opened Words
  import opened Addr

  /** One accepted Add: the key the address denotes and the value. */
  datatype Rec = Rec(key: Key, val: Value)

  type Log = seq<Rec>

  /** The finite map that the last Add for each key leaves. */
  ghost function LastWins(log: Log): map<Key, Value> {
    if log == [] then map[]
    else
      var r := log[|log| - 1];
      LastWins(log[..|log| - 1])[r.key := r.val]
  }

  lemma {:induction false} LastWinsKeys(log: Log, k: Key)
    ensures k in LastWins(log) <==> exists i :: 0 <= i < |log| && log[i].key == k
  {
    if log != [] {
      var init := log[..|log| - 1];
      LastWinsKeys(init, k);
      if k in LastWins(init) {
        var i :| 0 <= i < |init| && init[i].key == k;
        assert log[i].key == k;
      }
      if exists i :: 0 <= i < |log| && log[i].key == k {
        var i :| 0 <= i < |log| && log[i].key == k;
        if i < |init| {
          assert init[i].key == k;
        }
      }
    }
  }

  /** The record after which no other has its key is the one that wins. */
  lemma {:induction false} LastOneWins(log: Log, i: nat)
    requires i < |log| && forall j :: i < j < |log| ==> log[j].key != log[i].key
    ensures log[i].key in LastWins(log) && LastWins(log)[log[i].key] == log[i].val
  {
    var n := |log| - 1;
    if i < n {
      assert log[n].key != log[i].key;
      LastOneWins(log[..n], i);
    }
  }

  lemma KeyWins(log: Log, i: nat)
    requires i < |log|
    ensures log[i].key in LastWins(log)
  {
    LastWinsKeys(log, log[i].key);
  }

  /** Adds of `log` whose value is not the one that survives for their key. */
  ghost predicate Differs(log: Log, i: nat)
    requires i < |log|
  {
    KeyWins(log, i);
    log[i].val != LastWins(log)[log[i].key]
  }

  /** The values added for one key, in the order they came. */
  ghost function ValuesFor(log: Log, k: Key): seq<Value> {
    if log == [] then []
    else
      var n := |log| - 1;
      if log[n].key == k then ValuesFor(log[..n], k) + [log[n].val] else ValuesFor(log[..n], k)
  }

  /** Two logs hold the same Adds and agree on the order of those to the same key. */
  ghost predicate SameHistory(a: Log, b: Log) {
    forall k :: ValuesFor(a, k) == ValuesFor(b, k)
  }

  lemma {:induction false} ValuesForConcat(a: Log, b: Log, k: Key)
    ensures ValuesFor(a + b, k) == ValuesFor(a, k) + ValuesFor(b, k)
  {
    if b == [] {
      assert a + b == a;
    } else {
      var n := |b| - 1;
      ValuesForConcat(a, b[..n], k);
      assert (a + b)[..|a + b| - 1] == a + b[..n];
    }
  }

  lemma ValuesForPair(r: Rec, s: Rec, k: Key)
    ensures ValuesFor([r, s], k) == (if r.key == k then [r.val] else []) + (if s.key == k then [s.val] else [])
  {
    var none: Log := [];
    assert [r, s][..1] == [r] && [r][..0] == none;
    assert ValuesFor([r], k) == if r.key == k then [r.val] else [];
  }

  /** The reorderings meant: two neighbouring Adds to different keys, anywhere in a log, may change places. */
  lemma SwapKeepsHistory(a: Log, r: Rec, s: Rec, b: Log)
    requires r.key != s.key
    ensures SameHistory(a + [r, s] + b, a + [s, r] + b)
  {
    forall k ensures ValuesFor(a + [r, s] + b, k) == ValuesFor(a + [s, r] + b, k) {
      ValuesForConcat(a + [r, s], b, k);
      ValuesForConcat(a + [s, r], b, k);
      ValuesForConcat(a, [r, s], k);
      ValuesForConcat(a, [s, r], k);
      ValuesForPair(r, s, k);
      ValuesForPair(s, r, k);
    }
  }

  lemma {:induction false} WinnerIsLastValue(log: Log, k: Key)
    ensures k in LastWins(log) <==> ValuesFor(log, k) != []
    ensures k in LastWins(log) ==> LastWins(log)[k] == ValuesFor(log, k)[|ValuesFor(log, k)| - 1]
  {
    if log != [] {
      WinnerIsLastValue(log[..|log| - 1], k);
    }
  }

  lemma {:induction false} RecordCount(log: Log, r: Rec)
    ensures multiset(log)[r] == multiset(ValuesFor(log, r.key))[r.val]
  {
    if log != [] {
      var n := |log| - 1;
      RecordCount(log[..n], r);
      assert log == log[..n] + [log[n]];
    }
  }

  /** Reordering Adds to different keys changes neither the records nor the winners. */
  lemma SameHistorySameContent(a: Log, b: Log)
    requires SameHistory(a, b)
    ensures multiset(a) == multiset(b) && LastWins(a) == LastWins(b)
  {
    forall r: Rec ensures multiset(a)[r] == multiset(b)[r] {
      RecordCount(a, r);
      RecordCount(b, r);
    }
    forall k: Key
      ensures k in LastWins(a) <==> k in LastWins(b)
      ensures k in LastWins(a) ==> LastWins(a)[k] == LastWins(b)[k]
    {
      WinnerIsLastValue(a, k);
      WinnerIsLastValue(b, k);
    }
  }
}
