/** The keys of hidden entries are free: one of them can always move, and no lookup notices. */
module Hidden {
  import opened Words
  import opened Addr
  import opened Groups
  import opened Values
  import opened Store
  import opened Format
  import opened Framing
  import opened ArtifactLaws
  import opened Entries
  import opened Uniqueness

  /** The ends of ::ffff:0:0/96. */
  const BLOCK_LOW: nat := 0xFFFF_0000_0000
  const BLOCK_HIGH: nat := 0xFFFF_FFFF_FFFF

  lemma MappedIsBlock(a: Addr6)
    ensures Mapped(a) <==> BLOCK_LOW <= Num(a) <= BLOCK_HIGH
  {
  }

  // ---- room for a move ----

  /** `x` keeps its place in the order when it stands in for entry `i`. */
  ghost predicate FitsAt(a: seq<nat>, i: nat, x: nat)
    requires i < |a|
  {
    (i > 0 ==> a[i - 1] < x) && (i + 1 < |a| ==> x < a[i + 1])
  }

  ghost predicate NextFollows(a: seq<nat>, i: nat)
    requires i < |a|
  {
    i + 1 < |a| && a[i + 1] == a[i] + 1
  }

  ghost predicate LastPrecedes(a: seq<nat>, i: nat)
    requires i < |a|
  {
    i > 0 && a[i] == a[i - 1] + 1
  }

  /** Without a gap above, the entries run up to the top. */
  lemma {:induction false} RunsUp(a: seq<nat>, i: nat, high: nat)
    requires i < |a| && a[i] <= high
    requires forall k: nat :: k < |a| && a[i] <= a[k] < high ==> NextFollows(a, k)
    ensures |a| > i + (high - a[i])
    decreases high - a[i]
  {
    if a[i] < high {
      assert NextFollows(a, i);
      RunsUp(a, i + 1, high);
    }
  }

  /** Without a gap below, they run down to the bottom. */
  lemma {:induction false} RunsDown(a: seq<nat>, i: nat, low: nat)
    requires i < |a| && low <= a[i]
    requires forall k: nat :: k < |a| && low < a[k] <= a[i] ==> LastPrecedes(a, k)
    ensures i >= a[i] - low
    decreases i
  {
    if low < a[i] {
      assert LastPrecedes(a, i);
      RunsDown(a, i - 1, low);
    }
  }

  /** Fewer entries than the block has addresses leave some entry of the block free to move by one. */
  lemma RoomToMove(a: seq<nat>, low: nat, high: nat, j: nat) returns (i: nat, x: nat)
    requires StrictlyAscending(a) && j < |a| && low <= a[j] <= high && |a| <= high - low
    ensures i < |a| && low <= a[i] <= high && low <= x <= high && x != a[i] && FitsAt(a, i, x)
  {
    i, x := j, a[j];
    if k: nat :| k < |a| && a[j] <= a[k] < high && !NextFollows(a, k) {
      i, x := k, a[k] + 1;
    } else if k: nat :| k < |a| && low < a[k] <= a[j] && !LastPrecedes(a, k) {
      i, x := k, a[k] - 1;
    } else {
      RunsUp(a, j, high);
      RunsDown(a, j, low);
    }
  }

  // ---- the move in a layout ----

  lemma GroupAt(keys: seq<nat>, idx: seq<u32>, suffix: seq<nat>, radix: nat, minGroup: nat, h: nat, k: nat)
    requires |idx| == |keys| + 1 && GroupsOk(idx, suffix, |suffix|, minGroup) && Spans(idx, |suffix|)
    requires 1 <= h < |idx| && idx[h - 1] <= k < idx[h]
    ensures k < |suffix| && GroupOf(idx, k, |idx| - 1) == h - 1
    ensures Addresses(keys, idx, suffix, radix)[k] == keys[h - 1] * radix + suffix[k]
  {
    OkIsRising(idx, suffix, |suffix|, minGroup);
    RisingLe(idx, h, |idx| - 1);
    GroupUnique(idx, k, |idx| - 1, h - 1);
  }

  /** A suffix that fits in its place in the order keeps every group in order. */
  lemma MovedSteps(keys: seq<nat>, idx: seq<u32>, suffix: seq<nat>, radix: nat, minGroup: nat, i: nat, s: nat,
                   h: nat, k: int)
    requires |idx| == |keys| + 1 && GroupsOk(idx, suffix, |suffix|, minGroup) && Spans(idx, |suffix|)
    requires i < |suffix|
    requires var g := GroupOf(idx, i, |idx| - 1); FitsAt(Addresses(keys, idx, suffix, radix), i, keys[g] * radix + s)
    requires 1 <= h < |idx| && idx[h - 1] < k < idx[h]
    ensures StepsUp(suffix[i := s], k)
  {
    assert GroupOk(idx, suffix, minGroup, h);
    assert StepsUp(suffix, k);
    if k == i || k == i + 1 {
      GroupAt(keys, idx, suffix, radix, minGroup, h, k);
      GroupAt(keys, idx, suffix, radix, minGroup, h, k - 1);
    }
  }

  lemma MovedGroups(keys: seq<nat>, idx: seq<u32>, suffix: seq<nat>, radix: nat, minGroup: nat, i: nat, s: nat)
    requires |idx| == |keys| + 1 && GroupsOk(idx, suffix, |suffix|, minGroup) && Spans(idx, |suffix|)
    requires i < |suffix|
    requires var g := GroupOf(idx, i, |idx| - 1); FitsAt(Addresses(keys, idx, suffix, radix), i, keys[g] * radix + s)
    ensures GroupsOk(idx, suffix[i := s], |suffix|, minGroup)
    ensures Addresses(keys, idx, suffix[i := s], radix) ==
            Addresses(keys, idx, suffix, radix)[i := keys[GroupOf(idx, i, |idx| - 1)] * radix + s]
  {
    var t := suffix[i := s];
    forall h: nat | 1 <= h < |idx| ensures GroupOk(idx, t, minGroup, h) {
      assert GroupOk(idx, suffix, minGroup, h);
      forall k: int | idx[h - 1] < k < idx[h] ensures StepsUp(t, k) {
        MovedSteps(keys, idx, suffix, radix, minGroup, i, s, h, k);
      }
    }
    var a, b := Addresses(keys, idx, suffix, radix), Addresses(keys, idx, t, radix);
    forall j | 0 <= j < |suffix| && j != i ensures b[j] == a[j] {
      assert b[j] == AddressAt(keys, idx, t, radix, j);
    }
  }

  // ---- the move in a Map ----

  /** Entry `i` lies under a 4-in-6 key and `x` is another one that fits in its place. */
  ghost predicate CanMove(m: Map, i: nat, x: nat) {
    && Geometry(m) && Valid(m) && Reopened(m) == m && i < |Addresses6(m.s6)| == m.stats.addrs6
    && BLOCK_LOW <= Addresses6(m.s6)[i] <= BLOCK_HIGH && BLOCK_LOW <= x <= BLOCK_HIGH
    && x != Addresses6(m.s6)[i] && FitsAt(Addresses6(m.s6), i, x)
  }

  ghost function Moved(m: Map, i: nat, x: nat): Map
    requires CanMove(m, i, x)
  {
    m.(s6 := m.s6.(suffix := m.s6.suffix[i := x]))
  }

  lemma MovedAddresses(m: Map, i: nat, x: nat)
    requires CanMove(m, i, x)
    ensures Valid6(Moved(m, i, x).s6, m.stats.addrs6, m.valLen, m.stats.distinct)
    ensures Addresses6(Moved(m, i, x).s6) == Addresses6(m.s6)[i := x]
  {
    var s := m.s6;
    var g := GroupOf(s.pidx, i, |s.pidx| - 1);
    assert Addresses6(s)[i] == AddressAt(s.prefix, s.pidx, s.suffix, 0x1_0000_0000_0000_0000, i);
    assert s.prefix[g] == 0;
    MovedGroups(s.prefix, s.pidx, s.suffix, 0x1_0000_0000_0000_0000, 1, i, x);
  }

  lemma MovedIsSound(m: Map, i: nat, x: nat)
    requires CanMove(m, i, x)
    ensures var r := Moved(m, i, x); Geometry(r) && Valid(r) && Reopened(r) == r && r != m
  {
    MovedAddresses(m, i, x);
    var s, g := m.s6, GroupOf(m.s6.pidx, i, |m.s6.pidx| - 1);
    assert Addresses6(s)[i] == AddressAt(s.prefix, s.pidx, s.suffix, 0x1_0000_0000_0000_0000, i);
    assert s.prefix[g] == 0;
  }

  /** An address that is neither the old nor the new one is answered as before. */
  lemma MovedScan(a: seq<nat>, b: seq<nat>, vals: Values, i: nat, x: nat, y: nat)
    requires i < |a| && StrictlyAscending(a) && b == a[i := x] && FitsAt(a, i, x) && y != a[i] && y != x
    ensures Scan(b, vals, y) == Scan(a, vals, y)
  {
    match Find(a, y)
    case Some(j) =>
      FindAscending(b, y, j);
    case None =>
      forall j | 0 <= j < |b| ensures b[j] != y {
        assert j != i ==> b[j] == a[j];
      }
  }

  lemma MovedAnswers(m: Map, i: nat, x: nat, k: Key)
    requires CanMove(m, i, x) && Storable(k)
    ensures Answer(Moved(m, i, x), k) == Answer(m, k)
  {
    if k.Key6? {
      MappedIsBlock(k.a);
      StoredAscend(m);
      MovedAddresses(m, i, x);
      MovedScan(Addresses6(m.s6), Addresses6(Moved(m, i, x).s6), m.s6.vals, i, x, Num(k.a));
    }
  }

  lemma MovedIsSame(m: Map, i: nat, x: nat)
    requires CanMove(m, i, x)
    ensures SameToCallers(m, Moved(m, i, x))
  {
    forall addr: Address ensures Indistinct(m, Moved(m, i, x), addr) {
      match KeyOf(addr)
      case None =>
      case Some(k) =>
        KeyIsStorable(addr);
        MovedAnswers(m, i, x, k);
    }
  }

  lemma HiddenCanMove(m: Map, j: nat) returns (i: nat, x: nat)
    requires Geometry(m) && Valid(m) && Reopened(m) == m && j < m.stats.addrs6 && Mapped(Addr6At(m, j))
    ensures CanMove(m, i, x)
  {
    StoredAscend(m);
    MappedIsBlock(Addr6At(m, j));
    i, x := RoomToMove(Addresses6(m.s6), BLOCK_LOW, BLOCK_HIGH, j);
  }

  /** With an entry under a 4-in-6 key, in either mode, another accepted file has the same content. */
  lemma HiddenEntryTwoFiles(crc: Checksum, d: seq<byte>, m: Map)
    requires Open(crc, d) == Accepted(m) && Valid(m) && !NoHidden(m)
    ensures !OnlyFile(crc, d, m)
  {
    AcceptedIsCanonical(crc, d, m);
    var j: nat :| j < m.stats.addrs6 && Mapped(Addr6At(m, j));
    var i, x := HiddenCanMove(m, j);
    MovedIsSound(m, i, x);
    MovedIsSame(m, i, x);
    RivalFile(crc, d, m, Moved(m, i, x));
  }
}
