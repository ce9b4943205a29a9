/**
 * The layout both families share: entries in groups, group h's entries being the positions
 * [idx[h-1], idx[h]) of `suffix`, and the high part of every address given by its group alone.
 */
module Groups {
  import opened Words
  import opened LittleEndian

  /** Entry `j` exists and stands above the one before it. */
  predicate StepsUp(suffix: seq<nat>, j: int) {
    0 < j < |suffix| && suffix[j - 1] < suffix[j]
  }

  /** The group that ends at `idx[h]`: it does not run backwards, is not too small, and its suffixes ascend. */
  ghost predicate GroupOk(idx: seq<u32>, suffix: seq<nat>, minGroup: nat, h: nat)
    requires 1 <= h < |idx|
  {
    var lo, hi := idx[h - 1], idx[h];
    && lo <= hi && hi - lo >= minGroup
    && forall j: int :: lo < j < hi ==> StepsUp(suffix, j)
  }

  /** The offsets start at zero and end at `n`. */
  ghost predicate Spans(idx: seq<nat>, n: nat) {
    |idx| > 0 && idx[0] == 0 && idx[|idx| - 1] == n
  }

  /** What a reader relies on: the offsets span exactly the `n` entries and every group is in order. */
  ghost predicate GroupsOk(idx: seq<u32>, suffix: seq<nat>, n: nat, minGroup: nat) {
    && Spans(idx, n)
    && forall h: nat :: 1 <= h < |idx| ==> GroupOk(idx, suffix, minGroup, h)
  }

  /** Group `h` has at least two entries and ends past the suffixes, which ascend as far as they go. */
  ghost predicate Overruns(idx: seq<u32>, suffix: seq<nat>, minGroup: nat, h: nat)
    requires 1 <= h < |idx|
  {
    var lo, hi := idx[h - 1], idx[h];
    && (lo as int) + 2 <= hi && hi - lo >= minGroup && hi > |suffix|
    && forall j: int :: lo < j < |suffix| ==> StepsUp(suffix, j)
  }

  /** The check reads past the suffixes: some group overruns and everything before it is in order. */
  ghost predicate ReadsPast(idx: seq<u32>, suffix: seq<nat>, n: nat, minGroup: nat) {
    && Spans(idx, n)
    && exists h: nat :: 1 <= h < |idx| && Overruns(idx, suffix, minGroup, h)
                        && forall k: nat :: 1 <= k < h ==> GroupOk(idx, suffix, minGroup, k)
  }

  /** The outcomes of a check; `Panic` is an index out of range in the source. */
  datatype Verdict = Good | Bad | Panic

  ghost function GroupsVerdict(idx: seq<u32>, suffix: seq<nat>, n: nat, minGroup: nat): Verdict {
    if GroupsOk(idx, suffix, n, minGroup) then Good
    else if ReadsPast(idx, suffix, n, minGroup) then Panic
    else Bad
  }

  /** With every offset within the suffixes the check never reads past them. */
  lemma OffsetsWithinNeverPanic(idx: seq<u32>, suffix: seq<nat>, n: nat, minGroup: nat)
    requires forall h :: 0 <= h < |idx| ==> idx[h] <= |suffix|
    ensures GroupsVerdict(idx, suffix, n, minGroup) != Panic
  {
  }

  /** One interior offset beyond the entries is enough for the check to read past them. */
  lemma InteriorOffsetPanics()
    ensures GroupsVerdict([0, 4, 2], [5, 6], 2, 1) == Panic
  {
    var idx: seq<u32>, suffix: seq<nat> := [0, 4, 2], [5, 6];
    assert Overruns(idx, suffix, 1, 1);
    assert !GroupOk(idx, suffix, 1, 2);
  }

  lemma {:induction false} AscendsBy(suffix: seq<nat>, lo: nat, j: nat)
    requires lo <= j < |suffix|
    requires forall k: int :: lo < k <= j ==> StepsUp(suffix, k)
    ensures suffix[j] >= suffix[lo] + (j - lo)
  {
    if lo < j {
      assert StepsUp(suffix, j);
      AscendsBy(suffix, lo, j - 1);
    }
  }

  /** A group of ascending suffixes below `radix` has at most `radix` entries. */
  lemma GroupSize(idx: seq<u32>, suffix: seq<nat>, minGroup: nat, h: nat, radix: nat)
    requires 1 <= h < |idx| && GroupOk(idx, suffix, minGroup, h)
    requires radix > 0 && forall j :: 0 <= j < |suffix| ==> suffix[j] < radix
    ensures idx[h] - idx[h - 1] <= radix
  {
    var lo: nat, last: int := idx[h - 1], idx[h] as int - 1;
    if lo < last {
      assert StepsUp(suffix, last);
      AscendsBy(suffix, lo, last);
    }
  }

  /**
   * checkGroups. `lo + 1` is a 32-bit sum in the source; it cannot wrap, because groups are non-empty in the
   * one family and hold at most 256 of the 2^32 - 1 entries each in the other.
   */
  method CheckGroups(idx: seq<u32>, suffix: seq<nat>, n: nat, minGroup: nat, ghost radix: nat) returns (v: Verdict)
    requires |idx| > 0 && radix >= 2 && forall j :: 0 <= j < |suffix| ==> suffix[j] < radix
    requires minGroup > 0 || radix * (|idx| - 1) <= 0x1_0000_0000
    ensures v == GroupsVerdict(idx, suffix, n, minGroup)
  {
    if idx[0] != 0 || idx[|idx| - 1] != n {
      return Bad;
    }
    var i := 1;
    while i < |idx|
      invariant 1 <= i <= |idx|
      invariant forall h: nat :: 1 <= h < i ==> GroupOk(idx, suffix, minGroup, h)
      invariant minGroup == 0 ==> idx[i - 1] <= radix * (i - 1)
    {
      var lo, hi := idx[i - 1], idx[i];
      if hi < lo || hi - lo < minGroup {
        assert !GroupOk(idx, suffix, minGroup, i);
        StopsAt(idx, suffix, n, minGroup, i);
        return Bad;
      }
      NoWrap(radix, i, |idx|, minGroup, lo, hi);
      var j: u32 := lo + 1;
      while j < hi
        invariant lo < j && (j <= hi || j == lo + 1)
        invariant forall k: int :: lo < k < j && k < hi ==> StepsUp(suffix, k)
        decreases hi - j
      {
        if j >= |suffix| {
          OverrunIsNotOk(idx, suffix, minGroup, i);
          StopsAt(idx, suffix, n, minGroup, i);
          return Panic;
        }
        if suffix[j - 1] >= suffix[j] {
          assert !StepsUp(suffix, j);
          assert !GroupOk(idx, suffix, minGroup, i) && !Overruns(idx, suffix, minGroup, i);
          StopsAt(idx, suffix, n, minGroup, i);
          return Bad;
        }
        j := j + 1;
      }
      assert GroupOk(idx, suffix, minGroup, i);
      GroupSize(idx, suffix, minGroup, i, radix);
      assert radix * (i - 1) + radix == radix * i;
      i := i + 1;
    }
    return Good;
  }

  lemma NoWrap(radix: nat, i: nat, len: nat, minGroup: nat, lo: u32, hi: u32)
    requires 1 <= i < len && lo <= hi && hi - lo >= minGroup && radix >= 2
    requires minGroup > 0 || (radix * (len - 1) <= 0x1_0000_0000 && lo <= radix * (i - 1))
    ensures (lo as int) + 1 < 0x1_0000_0000
  {
    if minGroup == 0 {
      MulMono(i, len - 1, radix);
      assert radix * i == radix * (i - 1) + radix;
    }
  }

  /** The first group that is not in order decides. */
  lemma StopsAt(idx: seq<u32>, suffix: seq<nat>, n: nat, minGroup: nat, h: nat)
    requires Spans(idx, n) && 1 <= h < |idx|
    requires forall k: nat :: 1 <= k < h ==> GroupOk(idx, suffix, minGroup, k)
    requires !GroupOk(idx, suffix, minGroup, h)
    ensures GroupsVerdict(idx, suffix, n, minGroup) == if Overruns(idx, suffix, minGroup, h) then Panic else Bad
  {
    forall k: nat | 1 <= k < |idx| && Overruns(idx, suffix, minGroup, k)
      ensures !GroupOk(idx, suffix, minGroup, k)
    {
      OverrunIsNotOk(idx, suffix, minGroup, k);
    }
  }

  lemma OverrunIsNotOk(idx: seq<u32>, suffix: seq<nat>, minGroup: nat, h: nat)
    requires 1 <= h < |idx| && Overruns(idx, suffix, minGroup, h)
    ensures !GroupOk(idx, suffix, minGroup, h)
  {
    var lo, hi := idx[h - 1], idx[h];
    var j: int := if (lo as int) + 1 < |suffix| then |suffix| else (lo as int) + 1;
    assert lo < j < hi && !StepsUp(suffix, j);
  }

  // ---- the addresses a layout holds ----

  ghost predicate Rising(idx: seq<nat>) {
    forall h :: 1 <= h < |idx| ==> idx[h - 1] <= idx[h]
  }

  /** The group, below `top`, that position `j` falls in. */
  ghost function GroupOf(idx: seq<nat>, j: nat, top: nat): (g: nat)
    requires top < |idx| && idx[0] <= j < idx[top]
    ensures g < top && idx[g] <= j < idx[g + 1]
  {
    if idx[top - 1] <= j then top - 1 else GroupOf(idx, j, top - 1)
  }

  /** Entry `j`'s full address: its group's key over its own suffix. */
  ghost function AddressAt(keys: seq<nat>, idx: seq<nat>, suffix: seq<nat>, radix: nat, j: nat): (a: nat)
    requires |idx| == |keys| + 1 && Spans(idx, |suffix|) && j < |suffix|
  {
    keys[GroupOf(idx, j, |idx| - 1)] * radix + suffix[j]
  }

  /** The addresses in walking order: group after group, and each group's suffixes as they stand. */
  ghost function Addresses(keys: seq<nat>, idx: seq<nat>, suffix: seq<nat>, radix: nat): (a: seq<nat>)
    requires |idx| == |keys| + 1 && Spans(idx, |suffix|)
    ensures |a| == |suffix|
    ensures forall j :: 0 <= j < |suffix| ==> a[j] == AddressAt(keys, idx, suffix, radix, j)
  {
    seq(|suffix|, j requires 0 <= j < |suffix| => AddressAt(keys, idx, suffix, radix, j))
  }

  lemma {:induction false} RisingLe(idx: seq<nat>, a: nat, b: nat)
    requires Rising(idx) && a <= b < |idx|
    ensures idx[a] <= idx[b]
    decreases b
  {
    if a < b {
      RisingLe(idx, a, b - 1);
    }
  }

  lemma GroupUnique(idx: seq<nat>, j: nat, top: nat, g: nat)
    requires Rising(idx) && top < |idx| && idx[0] <= j < idx[top]
    requires g + 1 < |idx| && idx[g] <= j < idx[g + 1]
    ensures GroupOf(idx, j, top) == g
  {
    var h := GroupOf(idx, j, top);
    if h < g {
      RisingLe(idx, h + 1, g);
    } else if g < h {
      RisingLe(idx, g + 1, h);
    }
  }

  lemma OkIsRising(idx: seq<u32>, suffix: seq<nat>, n: nat, minGroup: nat)
    requires GroupsOk(idx, suffix, n, minGroup)
    ensures Rising(idx) && Spans(idx, n)
  {
    forall h | 1 <= h < |idx| ensures idx[h - 1] <= idx[h] {
      assert GroupOk(idx, suffix, minGroup, h);
    }
  }

  ghost predicate StrictlyAscending(s: seq<nat>) {
    forall i, j :: 0 <= i < j < |s| ==> s[i] < s[j]
  }

  lemma SuffixesAscend(idx: seq<u32>, suffix: seq<nat>, minGroup: nat, h: nat, i: nat, j: nat)
    requires 1 <= h < |idx| && GroupOk(idx, suffix, minGroup, h)
    requires idx[h - 1] <= i < j < idx[h] <= |suffix|
    ensures suffix[i] < suffix[j]
  {
    AscendsBy(suffix, i, j);
  }

  /** Walking a layout in order lists its addresses in strictly ascending order, so none is stored twice. */
  lemma WalkAscends(keys: seq<nat>, idx: seq<u32>, suffix: seq<nat>, radix: nat, minGroup: nat)
    requires |idx| == |keys| + 1 && GroupsOk(idx, suffix, |suffix|, minGroup)
    requires StrictlyAscending(keys)
    requires forall j :: 0 <= j < |suffix| ==> suffix[j] < radix
    ensures StrictlyAscending(Addresses(keys, idx, suffix, radix))
  {
    OkIsRising(idx, suffix, |suffix|, minGroup);
    var a := Addresses(keys, idx, suffix, radix);
    forall i, j | 0 <= i < j < |suffix| ensures a[i] < a[j] {
      WalkStep(keys, idx, suffix, radix, minGroup, i, j);
    }
  }

  lemma WalkStep(keys: seq<nat>, idx: seq<u32>, suffix: seq<nat>, radix: nat, minGroup: nat, i: nat, j: nat)
    requires |idx| == |keys| + 1 && GroupsOk(idx, suffix, |suffix|, minGroup) && Rising(idx) && Spans(idx, |suffix|)
    requires StrictlyAscending(keys)
    requires i < j < |suffix| && suffix[i] < radix
    ensures AddressAt(keys, idx, suffix, radix, i) < AddressAt(keys, idx, suffix, radix, j)
  {
    var top := |idx| - 1;
    var g, h := GroupOf(idx, i, top), GroupOf(idx, j, top);
    if h < g {
      RisingLe(idx, h + 1, g);
    } else if g == h {
      assert GroupOk(idx, suffix, minGroup, g + 1);
      RisingLe(idx, g + 1, top);
      SuffixesAscend(idx, suffix, minGroup, g + 1, i, j);
    } else {
      MulMono(keys[g] + 1, keys[h], radix);
      assert (keys[g] + 1) * radix == keys[g] * radix + radix;
    }
  }

  /** The linear scan: the first position that holds `x`. */
  ghost function Find(a: seq<nat>, x: nat): (r: Option<nat>)
    ensures r.Some? ==> r.value < |a| && a[r.value] == x
    ensures r.None? ==> x !in a
  {
    if a == [] then None
    else if a[0] == x then Some(0)
    else
      match Find(a[1..], x)
      case None => None
      case Some(j) => Some(j + 1)
  }

  lemma FindAscending(a: seq<nat>, x: nat, j: nat)
    requires StrictlyAscending(a) && j < |a| && a[j] == x
    ensures Find(a, x) == Some(j)
  {
    var r := Find(a, x);
    assert a[j] in a;
    assert r.Some?;
    AscendingUnique(a, r.value, j);
  }

  lemma AscendingUnique(xs: seq<nat>, i: nat, j: nat)
    requires StrictlyAscending(xs) && i < |xs| && j < |xs| && xs[i] == xs[j]
    ensures i == j
  {
  }

  lemma HasElement(t: seq<nat>)
    requires t != []
    ensures exists x :: x in t
  {
    assert t[0] in t;
  }

  lemma {:induction false} AscendingSameElements(s: seq<nat>, t: seq<nat>)
    requires StrictlyAscending(s) && StrictlyAscending(t)
    requires forall x :: x in s <==> x in t
    ensures s == t
    decreases |s|
  {
    if s == [] {
      if t != [] {
        HasElement(t);
      }
    } else {
      var m := |s| - 1;
      assert s[m] in t;
      var n := |t| - 1;
      assert t[n] in s;
      assert s[m] == t[n];
      forall x ensures x in s[..m] <==> x in t[..n] {
        InitElements(s, x);
        InitElements(t, x);
      }
      AscendingSameElements(s[..m], t[..n]);
      assert s == s[..m] + [s[m]] && t == t[..n] + [t[n]];
    }
  }

  lemma {:induction false} AscendingSize(s: seq<nat>)
    requires StrictlyAscending(s)
    ensures |Elements(s)| == |s|
  {
    if s != [] {
      var n := |s| - 1;
      AscendingSize(s[..n]);
      forall x ensures x in Elements(s) <==> x in Elements(s[..n]) + {s[n]} {
        InitElements(s, x);
      }
      assert Elements(s) == Elements(s[..n]) + {s[n]};
    }
  }

  ghost function Elements(s: seq<nat>): set<nat> {
    set x | x in s
  }

  /** An ascending list within another of its length is that list. */
  lemma AscendingWithin(s: seq<nat>, t: seq<nat>)
    requires StrictlyAscending(s) && StrictlyAscending(t) && |s| == |t|
    requires forall x :: x in s ==> x in t
    ensures s == t
  {
    AscendingSize(s);
    AscendingSize(t);
    assert Elements(s) <= Elements(t);
    assert |Elements(t) - Elements(s)| == 0;
    forall x | x in t ensures x in s {
      assert x in Elements(t);
    }
    AscendingSameElements(s, t);
  }

  lemma InitElements(s: seq<nat>, x: nat)
    requires StrictlyAscending(s) && s != []
    ensures x in s[..|s| - 1] <==> x in s && x != s[|s| - 1]
  {
    if x in s && x != s[|s| - 1] {
      var i :| 0 <= i < |s| && s[i] == x;
      assert s[..|s| - 1][i] == x;
    }
  }
}
