/** store.go: the two stores, the Map, and lookups proved equal to a linear scan over the stored addresses. */
module Store {
  import opened Words
  import opened LittleEndian
  import opened Addr
  import opened Values
  import opened Groups

  /** One group for each value of a 32-bit address's top 24 bits. */
  const GROUPS4: nat := 0x100_0000

  /** The 32-bit family; `idx` is empty (nil) when there are no entries. */
  datatype Store4 = Store4(idx: seq<u32>, suffix: seq<byte>, vals: Values)

  /** The 128-bit family: the distinct high words, where each one's run starts, and the low words. */
  datatype Store6 = Store6(prefix: seq<u64>, pidx: seq<u32>, suffix: seq<u64>, vals: Values)

  const EMPTY4 := Store4([], [], NO_VALUES)
  const EMPTY6 := Store6([], [], [], NO_VALUES)

  datatype Stats = Stats(addrs4: nat, addrs6: nat, dups: nat, dupConflicts: nat, distinct: nat)

  datatype Map = Map(s4: Store4, s6: Store6, valLen: nat, epoch: i64, stats: Stats)

  ghost predicate ValuesOk(v: Values, n: nat, valLen: nat, distinct: nat) {
    && valLen > 0
    && Shaped(v, n, valLen, distinct)
    && (distinct > 0 ==> IdsBelow(v, n, distinct))
  }

  /** What `Lookup` relies on in the 32-bit family. */
  ghost predicate Valid4(s: Store4, n: nat, valLen: nat, distinct: nat) {
    && |s.suffix| == n
    && if n == 0 then s.idx == [] else
         && |s.idx| == GROUPS4 + 1
         && GroupsOk(s.idx, s.suffix, n, 0)
         && ValuesOk(s.vals, n, valLen, distinct)
  }

  /** What `Lookup` relies on in the 128-bit family. */
  ghost predicate Valid6(s: Store6, n: nat, valLen: nat, distinct: nat) {
    && |s.suffix| == n
    && if n == 0 then s.prefix == [] else
         && |s.pidx| == |s.prefix| + 1
         && StrictlyAscending(s.prefix)
         && GroupsOk(s.pidx, s.suffix, n, 1)
         && ValuesOk(s.vals, n, valLen, distinct)
  }

  ghost predicate Valid(m: Map) {
    && Valid4(m.s4, m.stats.addrs4, m.valLen, m.stats.distinct)
    && Valid6(m.s6, m.stats.addrs6, m.valLen, m.stats.distinct)
  }

  ghost function Identity(n: nat): (keys: seq<nat>)
    ensures |keys| == n && forall g :: 0 <= g < n ==> keys[g] == g
    ensures StrictlyAscending(keys)
  {
    seq(n, g requires 0 <= g < n => g)
  }

  /** The stored 32-bit addresses, in entry order. */
  ghost function Addresses4(s: Store4): (a: seq<nat>) {
    if |s.idx| == GROUPS4 + 1 && Spans(s.idx, |s.suffix|)
    then Addresses(Identity(GROUPS4), s.idx, s.suffix, 0x100)
    else []
  }

  /** The stored 128-bit addresses, in entry order. */
  ghost function Addresses6(s: Store6): (a: seq<nat>) {
    if |s.pidx| == |s.prefix| + 1 && Spans(s.pidx, |s.suffix|)
    then Addresses(s.prefix, s.pidx, s.suffix, 0x1_0000_0000_0000_0000)
    else []
  }

  /** Scanning every stored address for `x` and reading the value beside the one found. */
  ghost function Scan(addresses: seq<nat>, vals: Values, x: nat): (r: Option<Value>) {
    match Find(addresses, x)
    case None => None
    case Some(j) => if Readable(vals, j) then Some(Get(vals, j)) else None
  }

  /** The answer for a key by linear scan. */
  ghost function Answer(m: Map, k: Key): Option<Value> {
    match k
    case Key4(ip) => Scan(Addresses4(m.s4), m.s4.vals, ip)
    case Key6(a) => Scan(Addresses6(m.s6), m.s6.vals, Num(a))
  }

  /** The answer for an address: a miss for an invalid or zoned one. */
  ghost function Lookup(m: Map, addr: Address): Option<Value> {
    match KeyOf(addr)
    case None => None
    case Some(k) => Answer(m, k)
  }

  /** Walking either family lists its addresses in strictly ascending order: no address is stored twice. */
  lemma StoredAscend(m: Map)
    requires Valid(m)
    ensures StrictlyAscending(Addresses4(m.s4)) && |Addresses4(m.s4)| == m.stats.addrs4
    ensures StrictlyAscending(Addresses6(m.s6)) && |Addresses6(m.s6)| == m.stats.addrs6
  {
    if m.stats.addrs4 > 0 {
      WalkAscends(Identity(GROUPS4), m.s4.idx, m.s4.suffix, 0x100, 0);
    }
    if m.stats.addrs6 > 0 {
      WalkAscends(m.s6.prefix, m.s6.pidx, m.s6.suffix, 0x1_0000_0000_0000_0000, 1);
    }
  }

  /** A position of group `g` found to hold the suffix is what the scan finds. */
  lemma HitAt(keys: seq<nat>, idx: seq<u32>, suffix: seq<nat>, radix: nat, minGroup: nat, g: nat, j: nat)
    requires |idx| == |keys| + 1 && GroupsOk(idx, suffix, |suffix|, minGroup)
    requires StrictlyAscending(keys) && forall k :: 0 <= k < |suffix| ==> suffix[k] < radix
    requires g < |keys| && idx[g] <= j < idx[g + 1]
    ensures j < |suffix| && Spans(idx, |suffix|)
    ensures Find(Addresses(keys, idx, suffix, radix), keys[g] * radix + suffix[j]) == Some(j)
  {
    OkIsRising(idx, suffix, |suffix|, minGroup);
    RisingLe(idx, g + 1, |idx| - 1);
    GroupUnique(idx, j, |idx| - 1, g);
    WalkAscends(keys, idx, suffix, radix, minGroup);
    FindAscending(Addresses(keys, idx, suffix, radix), keys[g] * radix + suffix[j], j);
  }

  lemma SameAddress(k: nat, s: nat, k': nat, s': nat, radix: nat)
    requires s < radix && s' < radix && k * radix + s == k' * radix + s'
    ensures k == k' && s == s'
  {
    if k < k' {
      MulMono(k + 1, k', radix);
    } else if k' < k {
      MulMono(k' + 1, k, radix);
    }
  }

  /** No group has the key, or the group with the key lacks the suffix: the scan finds nothing. */
  lemma MissAll(keys: seq<nat>, idx: seq<u32>, suffix: seq<nat>, radix: nat, minGroup: nat, key: nat, low: nat)
    requires |idx| == |keys| + 1 && GroupsOk(idx, suffix, |suffix|, minGroup)
    requires low < radix && forall k :: 0 <= k < |suffix| ==> suffix[k] < radix
    requires forall g: nat, j: nat :: g < |keys| && keys[g] == key && idx[g] <= j < idx[g + 1] ==>
                                        j >= |suffix| || suffix[j] != low
    ensures Spans(idx, |suffix|) && Find(Addresses(keys, idx, suffix, radix), key * radix + low) == None
  {
    OkIsRising(idx, suffix, |suffix|, minGroup);
    var a := Addresses(keys, idx, suffix, radix);
    var x := key * radix + low;
    var r := Find(a, x);
    if r.Some? {
      var j := r.value;
      var g := GroupOf(idx, j, |idx| - 1);
      assert a[j] == AddressAt(keys, idx, suffix, radix, j);
      SameAddress(keys[g], suffix[j], key, low, radix);
    }
  }

  /** Group `g`'s run of entries lies within the suffixes and ascends. */
  lemma RunOf(idx: seq<u32>, suffix: seq<nat>, minGroup: nat, g: nat)
    requires GroupsOk(idx, suffix, |suffix|, minGroup) && g + 1 < |idx|
    ensures idx[g] <= idx[g + 1] <= |suffix|
    ensures StrictlyAscending(suffix[idx[g]..idx[g + 1]])
  {
    OkIsRising(idx, suffix, |suffix|, minGroup);
    RisingLe(idx, g, g + 1);
    RisingLe(idx, g + 1, |idx| - 1);
    var lo: nat := idx[g];
    var run := suffix[lo..idx[g + 1]];
    assert GroupOk(idx, suffix, minGroup, g + 1);
    forall p, q | 0 <= p < q < |run| ensures run[p] < run[q] {
      SuffixesAscend(idx, suffix, minGroup, g + 1, lo + p, lo + q);
    }
  }

  lemma ScanHit(a: seq<nat>, vals: Values, x: nat, j: nat)
    requires Find(a, x) == Some(j) && Readable(vals, j)
    ensures Scan(a, vals, x) == Some(Get(vals, j))
  {
  }

  /** What is found at position `j` of group `g` is the scan's answer. */
  lemma Hit4(s: Store4, n: nat, valLen: nat, distinct: nat, g: nat, j: nat, ip: u32)
    requires Valid4(s, n, valLen, distinct) && n > 0
    requires g < GROUPS4 && s.idx[g] <= j < s.idx[g + 1] <= n && ip == g * 0x100 + s.suffix[j]
    ensures Readable(s.vals, j)
    ensures Scan(Addresses4(s), s.vals, ip) == Some(Get(s.vals, j))
  {
    HitAt(Identity(GROUPS4), s.idx, s.suffix, 0x100, 0, g, j);
    ShapedIsReadable(s.vals, n, valLen, distinct, j);
    ScanHit(Addresses4(s), s.vals, ip, j);
  }

  lemma Miss4(s: Store4, n: nat, valLen: nat, distinct: nat, g: nat, low: byte, ip: u32)
    requires Valid4(s, n, valLen, distinct) && n > 0
    requires g < GROUPS4 && s.idx[g] <= s.idx[g + 1] <= n && ip == g * 0x100 + low
    requires forall j :: s.idx[g] <= j < s.idx[g + 1] ==> s.suffix[j] != low
    ensures Scan(Addresses4(s), s.vals, ip) == None
  {
    MissAll(Identity(GROUPS4), s.idx, s.suffix, 0x100, 0, g, low);
  }

  lemma Hit6(s: Store6, n: nat, valLen: nat, distinct: nat, g: nat, j: nat)
    requires Valid6(s, n, valLen, distinct) && n > 0
    requires g < |s.prefix| && s.pidx[g] <= j < s.pidx[g + 1] && j < n
    ensures Readable(s.vals, j)
    ensures Scan(Addresses6(s), s.vals, Num(Addr6(s.prefix[g], s.suffix[j]))) == Some(Get(s.vals, j))
  {
    HitAt(s.prefix, s.pidx, s.suffix, 0x1_0000_0000_0000_0000, 1, g, j);
    ShapedIsReadable(s.vals, n, valLen, distinct, j);
    ScanHit(Addresses6(s), s.vals, Num(Addr6(s.prefix[g], s.suffix[j])), j);
  }

  lemma NoPrefix6(s: Store6, n: nat, valLen: nat, distinct: nat, a: Addr6)
    requires Valid6(s, n, valLen, distinct) && a.hi !in s.prefix
    ensures Scan(Addresses6(s), s.vals, Num(a)) == None
  {
    if n > 0 {
      MissAll(s.prefix, s.pidx, s.suffix, 0x1_0000_0000_0000_0000, 1, a.hi, a.lo);
    }
  }

  /** A suffix missing from the run of the one group with the key is missing under that key. */
  lemma MissingUnder(prefix: seq<u64>, pidx: seq<u32>, suffix: seq<u64>, i: nat, low: u64, g: nat, j: nat)
    requires |pidx| == |prefix| + 1 && StrictlyAscending(prefix) && i < |prefix|
    requires pidx[i] <= pidx[i + 1] <= |suffix| && low !in suffix[pidx[i]..pidx[i + 1]]
    requires g < |prefix| && prefix[g] == prefix[i] && pidx[g] <= j < pidx[g + 1]
    ensures j < |suffix| && suffix[j] != low
  {
    AscendingUnique(prefix, g, i);
    assert suffix[j] == suffix[pidx[i]..pidx[i + 1]][j - pidx[i]];
  }

  lemma Miss6(s: Store6, n: nat, valLen: nat, distinct: nat, i: nat, a: Addr6)
    requires Valid6(s, n, valLen, distinct) && n > 0
    requires i < |s.prefix| && s.prefix[i] == a.hi && s.pidx[i] <= s.pidx[i + 1] <= n
    requires a.lo !in s.suffix[s.pidx[i]..s.pidx[i + 1]]
    ensures Scan(Addresses6(s), s.vals, Num(a)) == None
  {
    forall g: nat, j: nat | g < |s.prefix| && s.prefix[g] == a.hi && s.pidx[g] <= j < s.pidx[g + 1]
      ensures j >= |s.suffix| || s.suffix[j] != a.lo
    {
      MissingUnder(s.prefix, s.pidx, s.suffix, i, a.lo, g, j);
    }
    MissAll(s.prefix, s.pidx, s.suffix, 0x1_0000_0000_0000_0000, 1, a.hi, a.lo);
  }

  /** The scan of one run with its early exit: the position holding `want`, if any. */
  method ScanRun(suffix: seq<byte>, lo: u32, hi: u32, want: byte) returns (r: Option<nat>)
    requires lo <= hi <= |suffix| && StrictlyAscending(suffix[lo..hi])
    ensures r.Some? ==> lo <= r.value < hi && suffix[r.value] == want
    ensures r.None? ==> forall k :: lo <= k < hi ==> suffix[k] != want
  {
    var j := lo;
    while j < hi
      invariant lo <= j <= hi
      invariant forall k :: lo <= k < j ==> suffix[k] < want
    {
      if suffix[j] == want {
        return Some(j);
      }
      if suffix[j] > want {
        forall k | j < k < hi ensures suffix[k] > want {
          assert suffix[lo..hi][j - lo] < suffix[lo..hi][k - lo];
        }
        return None;
      }
      j := j + 1;
    }
    return None;
  }

  lemma Run4(s: Store4, n: nat, valLen: nat, distinct: nat, g: nat)
    requires Valid4(s, n, valLen, distinct) && n > 0 && g < GROUPS4
    ensures |s.idx| == GROUPS4 + 1 && |s.suffix| == n && s.idx[g] <= s.idx[g + 1] <= n
    ensures StrictlyAscending(s.suffix[s.idx[g]..s.idx[g + 1]])
  {
    RunOf(s.idx, s.suffix, 0, g);
  }

  /** The scan of group `g`. */
  method LookupGroup4(s: Store4, g: nat, low: byte, ghost ip: u32, ghost n: nat, ghost valLen: nat, ghost distinct: nat)
    returns (r: Option<Value>)
    requires Valid4(s, n, valLen, distinct) && n > 0 && g < GROUPS4 && ip == g * 0x100 + low
    ensures r == Scan(Addresses4(s), s.vals, ip)
  {
    Run4(s, n, valLen, distinct, g);
    var at := ScanRun(s.suffix, s.idx[g], s.idx[g + 1], low);
    match at
    case None =>
      Miss4(s, n, valLen, distinct, g, low, ip);
      r := None;
    case Some(j) =>
      Hit4(s, n, valLen, distinct, g, j, ip);
      var v := GetValue(s.vals, j);
      r := Some(v);
  }

  /** store4.lookup. */
  method Lookup4(s: Store4, ip: u32, ghost n: nat, ghost valLen: nat, ghost distinct: nat) returns (r: Option<Value>)
    requires Valid4(s, n, valLen, distinct)
    ensures r == Scan(Addresses4(s), s.vals, ip)
  {
    if s.idx == [] {
      return None;
    }
    SplitAddress(ip);
    r := LookupGroup4(s, ip / 0x100, ip % 0x100, ip, n, valLen, distinct);
  }

  lemma SplitAddress(ip: u32)
    ensures ip / 0x100 < GROUPS4 && ip / 0x100 * 0x100 + ip % 0x100 == ip
  {
  }

  /** sort.Search over `xs[k] >= x`: the first position at or above `x`. */
  method Search(xs: seq<u64>, x: u64) returns (i: nat)
    requires StrictlyAscending(xs)
    ensures i <= |xs|
    ensures forall k :: 0 <= k < i ==> xs[k] < x
    ensures forall k :: i <= k < |xs| ==> xs[k] >= x
  {
    i := 0;
    var j: nat := |xs|;
    while i < j
      invariant i <= j <= |xs|
      invariant forall k :: 0 <= k < i ==> xs[k] < x
      invariant forall k :: j <= k < |xs| ==> xs[k] >= x
    {
      var h := (i + j) / 2;
      if xs[h] >= x {
        j := h;
      } else {
        i := h + 1;
      }
    }
  }

  /** store6.lookup: a search for the prefix and a search in its run. */
  method Lookup6(s: Store6, a: Addr6, ghost n: nat, ghost valLen: nat, ghost distinct: nat) returns (r: Option<Value>)
    requires Valid6(s, n, valLen, distinct)
    ensures r == Scan(Addresses6(s), s.vals, Num(a))
  {
    var i := Search(s.prefix, a.hi);
    if i == |s.prefix| || s.prefix[i] != a.hi {
      NotPresent(s.prefix, a.hi, i);
      NoPrefix6(s, n, valLen, distinct, a);
      return None;
    }
    RunOf(s.pidx, s.suffix, 1, i);
    var lo, hi := s.pidx[i], s.pidx[i + 1];
    var seg := s.suffix[lo..hi];
    var j := Search(seg, a.lo);
    if j == |seg| || seg[j] != a.lo {
      NotPresent(seg, a.lo, j);
      Miss6(s, n, valLen, distinct, i, a);
      return None;
    }
    Hit6(s, n, valLen, distinct, i, lo + j);
    var v := GetValue(s.vals, lo + j);
    return Some(v);
  }

  lemma NotPresent(xs: seq<u64>, x: u64, i: nat)
    requires StrictlyAscending(xs) && i <= |xs| && (i < |xs| ==> xs[i] > x)
    requires forall k :: 0 <= k < i ==> xs[k] < x
    ensures x !in xs
  {
  }

  /** Map.Lookup. */
  method LookupAddr(m: Map, addr: Address) returns (r: Option<Value>)
    requires Valid(m)
    ensures r == Lookup(m, addr)
    ensures addr.Invalid? || (addr.V6? && addr.zone != "") ==> r == None
  {
    if addr.Invalid? || (addr.V6? && addr.zone != "") {
      return None;
    }
    match Unmap(addr)
    case V4(b) =>
      r := Lookup4(m.s4, Ip4(b), m.stats.addrs4, m.valLen, m.stats.distinct);
    case V6(b, _) =>
      var a := Addr6Of(b);
      r := Lookup6(m.s6, a, m.stats.addrs6, m.valLen, m.stats.distinct);
  }

  /** Map.LookupInto: a destination that is too short reads as a miss. */
  method LookupInto(m: Map, addr: Address, dst: array<byte>) returns (ok: bool)
    requires Valid(m)
    modifies dst
    ensures ok <==> dst.Length >= m.valLen && Lookup(m, addr).Some?
    ensures addr.Invalid? || (addr.V6? && addr.zone != "") ==> !ok
    ensures ok ==> |Lookup(m, addr).value| == m.valLen
                   && dst[..] == Lookup(m, addr).value + old(dst[m.valLen..])
    ensures !ok ==> dst[..] == old(dst[..])
  {
    if dst.Length < m.valLen {
      return false;
    }
    var v := LookupAddr(m, addr);
    if v.None? {
      return false;
    }
    AnswerLength(m, addr);
    Copy(dst, v.value);
    ok := true;
  }

  /** Go's copy, with room for all of `src`. */
  method Copy(dst: array<byte>, src: seq<byte>)
    requires |src| <= dst.Length
    modifies dst
    ensures dst[..] == src + old(dst[|src|..])
  {
    forall i | 0 <= i < |src| {
      dst[i] := src[i];
    }
  }

  lemma AnswerLength(m: Map, addr: Address)
    requires Valid(m) && Lookup(m, addr).Some?
    ensures |Lookup(m, addr).value| == m.valLen
  {
  }
}
