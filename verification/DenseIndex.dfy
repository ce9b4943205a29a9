/** build4's counting pass and prefix sums over the 2^24 groups. */
module DenseIndex {
  import opened Words
  import opened Store
  import opened Layout

  /** How many entries are in group `g` itself. */
  ghost function Exactly(ws: seq<nat>, g: nat): (c: nat)
    ensures c <= |ws|
  {
    if ws == [] then 0
    else
      var n := |ws| - 1;
      Exactly(ws[..n], g) + if Top(ws[n]) == g then 1 else 0
  }

  lemma {:induction false} BelowNext(ws: seq<nat>, g: nat)
    ensures Below(ws, g + 1) == Below(ws, g) + Exactly(ws, g)
  {
    if ws != [] {
      BelowNext(ws[..|ws| - 1], g);
    }
  }

  lemma ExactlyPush(ws: seq<nat>, w: nat, g: nat)
    ensures Exactly(ws + [w], g) == Exactly(ws, g) + if Top(w) == g then 1 else 0
  {
    assert (ws + [w])[..|ws|] == ws;
  }

  lemma TopFits(w: u64)
    ensures Top(w) < GROUPS4
  {
  }

  /** The counting pass: one past each group, how many entries it has. No 32-bit count can wrap. */
  method CountGroups(a: array<u64>, n: nat, idx: array<u32>)
    requires n <= a.Length && n <= MAX_U32 && idx.Length == GROUPS4 + 1
    requires forall g :: 0 <= g <= GROUPS4 ==> idx[g] == 0
    modifies idx
    ensures idx[0] == 0 && forall g :: 0 <= g < GROUPS4 ==> idx[g + 1] == Exactly(a[..n], g)
    ensures a[..] == old(a[..])
  {
    var i := 0;
    while i < n
      invariant 0 <= i <= n && idx[0] == 0 && a[..] == old(a[..])
      invariant forall g :: 0 <= g < GROUPS4 ==> idx[g + 1] == Exactly(a[..i], g)
    {
      TopFits(a[i]);
      var t := Top(a[i]);
      assert a[..i + 1] == a[..i] + [a[i]];
      forall g | 0 <= g < GROUPS4
        ensures Exactly(a[..i + 1], g) == Exactly(a[..i], g) + if t == g then 1 else 0
      {
        ExactlyPush(a[..i], a[i], g);
      }
      assert idx[t + 1] == Exactly(a[..i], t);
      idx[t + 1] := idx[t + 1] + 1;
      i := i + 1;
    }
  }

  /** The prefix sums turn the counts into offsets. */
  method SumGroups(idx: array<u32>, ghost ws: seq<nat>)
    requires idx.Length == GROUPS4 + 1 && |ws| <= MAX_U32
    requires idx[0] == 0 && forall g :: 0 <= g < GROUPS4 ==> idx[g + 1] == Exactly(ws, g)
    modifies idx
    ensures idx[..] == Index4(ws)
  {
    BelowNone(ws);
    var i := 1;
    while i < idx.Length
      invariant 1 <= i <= idx.Length
      invariant forall g :: 0 <= g < i ==> idx[g] == Below(ws, g)
      invariant forall g :: i <= g < idx.Length ==> idx[g] == Exactly(ws, g - 1)
    {
      BelowNext(ws, i - 1);
      idx[i] := idx[i] + idx[i - 1];
      i := i + 1;
    }
  }
}
