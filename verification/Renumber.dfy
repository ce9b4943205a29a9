/** A table's rows are free to stand in another order: two rows exchanged and every id renumbered to follow. */
module Renumber {
  import opened Words
  import opened LittleEndian
  import opened Addr
  import opened Values
  import opened Store
  import opened Format
  import opened Framing
  import opened ArtifactLaws
  import opened Uniqueness

  ghost function Exchanged(p: nat, q: nat, x: nat): nat {
    if x == p then q else if x == q then p else x
  }

  /** The rows of a table with rows `p` and `q` exchanged. */
  ghost function RowsExchanged(tab: seq<byte>, valLen: nat, distinct: nat, p: nat, q: nat): (rows: seq<Value>)
    requires |tab| == distinct * valLen && p < distinct && q < distinct
    ensures |rows| == distinct && Uniform(rows, valLen)
    ensures forall i :: 0 <= i < distinct ==> rows[i] == SlotOf(tab, valLen, distinct, Exchanged(p, q, i))
  {
    seq(distinct, i requires 0 <= i < distinct => SlotOf(tab, valLen, distinct, Exchanged(p, q, i)))
  }

  ghost function TabExchanged(tab: seq<byte>, valLen: nat, distinct: nat, p: nat, q: nat): (t: seq<byte>)
    requires |tab| == distinct * valLen && p < distinct && q < distinct
    ensures |t| == |tab|
  {
    ConcatLength(RowsExchanged(tab, valLen, distinct, p, q), valLen);
    Concat(RowsExchanged(tab, valLen, distinct, p, q))
  }

  ghost function IdAt(ids: seq<byte>, w: nat, n: nat, i: nat): nat
    requires |ids| == n * w && i < n
  {
    MulMono(i + 1, n, w);
    WordAt(ids, w, i)
  }

  ghost function NewIds(ids: seq<byte>, w: nat, n: nat, p: nat, q: nat): (xs: seq<nat>)
    requires |ids| == n * w
    ensures |xs| == n && forall i :: 0 <= i < n ==> xs[i] == Exchanged(p, q, IdAt(ids, w, n, i))
  {
    seq(n, i requires 0 <= i < n => Exchanged(p, q, IdAt(ids, w, n, i)))
  }

  /** The same values under the new numbering. */
  ghost function Renumbered(v: Values, n: nat, distinct: nat, p: nat, q: nat): Values
    requires |v.tab| == distinct * v.valLen && |v.ids| == n * v.idW && p < distinct && q < distinct
  {
    v.(tab := TabExchanged(v.tab, v.valLen, distinct, p, q), ids := Pack(v.idW, NewIds(v.ids, v.idW, n, p, q)))
  }

  lemma NewIdReads(v: Values, n: nat, valLen: nat, distinct: nat, p: nat, q: nat, i: nat)
    requires ValuesOk(v, n, valLen, distinct) && 0 < distinct <= MAX_U32 && p < distinct && q < distinct && i < n
    ensures var ids := Renumbered(v, n, distinct, p, q).ids;
            && (i + 1) * v.idW <= |v.ids| == |ids|
            && WordAt(ids, v.idW, i) == Exchanged(p, q, WordAt(v.ids, v.idW, i)) < distinct
  {
    var xs := NewIds(v.ids, v.idW, n, p, q);
    assert xs[i] == Exchanged(p, q, IdAt(v.ids, v.idW, n, i));
    PackWord(v.idW, xs, i);
  }

  lemma RenumberedOk(v: Values, n: nat, valLen: nat, distinct: nat, p: nat, q: nat)
    requires ValuesOk(v, n, valLen, distinct) && 0 < distinct <= MAX_U32 && p < distinct && q < distinct
    ensures ValuesOk(Renumbered(v, n, distinct, p, q), n, valLen, distinct)
  {
    var r := Renumbered(v, n, distinct, p, q);
    forall i: nat | i < n ensures (i + 1) * r.idW <= |r.ids| && WordAt(r.ids, r.idW, i) < distinct {
      NewIdReads(v, n, valLen, distinct, p, q, i);
    }
  }

  /** Row `k` of the old table is row `Exchanged(k)` of the new one. */
  lemma RowMoved(tab: seq<byte>, valLen: nat, distinct: nat, p: nat, q: nat, k: nat)
    requires |tab| == distinct * valLen && p < distinct && q < distinct && k < distinct
    ensures (Exchanged(p, q, k) + 1) * valLen <= |tab| && (k + 1) * valLen <= |tab|
    ensures Slot(TabExchanged(tab, valLen, distinct, p, q), valLen, Exchanged(p, q, k)) == Slot(tab, valLen, k)
  {
    MulMono(k + 1, distinct, valLen);
    ConcatSlot(RowsExchanged(tab, valLen, distinct, p, q), valLen, Exchanged(p, q, k));
  }

  /** No entry's value changes. */
  lemma RenumberedReads(v: Values, n: nat, valLen: nat, distinct: nat, p: nat, q: nat, i: nat)
    requires ValuesOk(v, n, valLen, distinct) && 0 < distinct <= MAX_U32 && p < distinct && q < distinct && i < n
    ensures var r := Renumbered(v, n, distinct, p, q); Readable(v, i) && Readable(r, i) && Get(r, i) == Get(v, i)
  {
    var r := Renumbered(v, n, distinct, p, q);
    NewIdReads(v, n, valLen, distinct, p, q, i);
    var id := WordAt(v.ids, v.idW, i);
    RowMoved(v.tab, valLen, distinct, p, q, id);
    InternedReads(v, i, id, Slot(v.tab, valLen, id));
    InternedReads(r, i, Exchanged(p, q, id), Slot(v.tab, valLen, id));
  }

  /** But an entry whose row was exchanged has another id. */
  lemma RenumberedDiffers(v: Values, n: nat, valLen: nat, distinct: nat, p: nat, q: nat)
    requires ValuesOk(v, n, valLen, distinct) && 0 < distinct <= MAX_U32 && p < distinct && q < distinct && p != q
    requires n > 0 && IdAt(v.ids, v.idW, n, 0) == p
    ensures Renumbered(v, n, distinct, p, q) != v
  {
    NewIdReads(v, n, valLen, distinct, p, q, 0);
  }

  // ---- the Map renumbered ----

  ghost predicate Renumberable(m: Map, p: nat, q: nat) {
    Geometry(m) && Valid(m) && Reopened(m) == m && p < m.stats.distinct && q < m.stats.distinct
  }

  ghost function RenumberedMap(m: Map, p: nat, q: nat): Map
    requires Renumberable(m, p, q)
  {
    var s := m.stats;
    m.(s4 := if s.addrs4 > 0 then m.s4.(vals := Renumbered(m.s4.vals, s.addrs4, s.distinct, p, q)) else m.s4,
       s6 := if s.addrs6 > 0 then m.s6.(vals := Renumbered(m.s6.vals, s.addrs6, s.distinct, p, q)) else m.s6)
  }

  lemma RenumberedIsSound(m: Map, p: nat, q: nat)
    requires Renumberable(m, p, q)
    ensures var r := RenumberedMap(m, p, q); Geometry(r) && Valid(r) && Reopened(r) == r
  {
    var s := m.stats;
    if s.addrs4 > 0 {
      RenumberedOk(m.s4.vals, s.addrs4, m.valLen, s.distinct, p, q);
    }
    if s.addrs6 > 0 {
      RenumberedOk(m.s6.vals, s.addrs6, m.valLen, s.distinct, p, q);
    }
  }

  /** Scanning the same addresses over equal values answers alike. */
  lemma SameScan(a: seq<nat>, v: Values, w: Values, x: nat)
    requires forall j: nat :: j < |a| ==> Readable(v, j) && Readable(w, j) && Get(w, j) == Get(v, j)
    ensures Scan(a, w, x) == Scan(a, v, x)
  {
  }

  lemma RenumberedAnswers(m: Map, p: nat, q: nat, k: Key)
    requires Renumberable(m, p, q)
    ensures Answer(RenumberedMap(m, p, q), k) == Answer(m, k)
  {
    var r, s := RenumberedMap(m, p, q), m.stats;
    StoredAscend(m);
    forall j: nat | j < s.addrs4 ensures Readable(m.s4.vals, j) && Readable(r.s4.vals, j)
                                         && Get(r.s4.vals, j) == Get(m.s4.vals, j) {
      RenumberedReads(m.s4.vals, s.addrs4, m.valLen, s.distinct, p, q, j);
    }
    forall j: nat | j < s.addrs6 ensures Readable(m.s6.vals, j) && Readable(r.s6.vals, j)
                                         && Get(r.s6.vals, j) == Get(m.s6.vals, j) {
      RenumberedReads(m.s6.vals, s.addrs6, m.valLen, s.distinct, p, q, j);
    }
    match k
    case Key4(ip) => SameScan(Addresses4(m.s4), m.s4.vals, r.s4.vals, ip);
    case Key6(a) => SameScan(Addresses6(m.s6), m.s6.vals, r.s6.vals, Num(a));
  }

  lemma RenumberedIsSame(m: Map, p: nat, q: nat)
    requires Renumberable(m, p, q)
    ensures SameToCallers(m, RenumberedMap(m, p, q))
  {
    forall addr: Address ensures Indistinct(m, RenumberedMap(m, p, q), addr) {
      match KeyOf(addr)
      case None =>
      case Some(k) => RenumberedAnswers(m, p, q, k);
    }
  }

  /** The id of the first entry of the first family that has one. */
  ghost function FirstId(m: Map): (p: nat)
    requires Geometry(m) && Valid(m) && Interned(m)
    ensures p < m.stats.distinct
  {
    var s := m.stats;
    if s.addrs4 > 0 then IdAt(m.s4.vals.ids, m.s4.vals.idW, s.addrs4, 0)
    else IdAt(m.s6.vals.ids, m.s6.vals.idW, s.addrs6, 0)
  }

  lemma RenumberedIsOther(m: Map, q: nat)
    requires Geometry(m) && Valid(m) && Interned(m) && Renumberable(m, FirstId(m), q) && q != FirstId(m)
    ensures RenumberedMap(m, FirstId(m), q) != m
  {
    var s, p := m.stats, FirstId(m);
    if s.addrs4 > 0 {
      RenumberedDiffers(m.s4.vals, s.addrs4, m.valLen, s.distinct, p, q);
    } else {
      RenumberedDiffers(m.s6.vals, s.addrs6, m.valLen, s.distinct, p, q);
    }
  }

  /** With two rows or more in the table, whatever they hold, another accepted file has the same content. */
  lemma TwoRowsTwoFiles(crc: Checksum, d: seq<byte>, m: Map)
    requires Open(crc, d) == Accepted(m) && m.stats.distinct >= 2
    ensures !OnlyFile(crc, d, m)
  {
    AcceptedIsCanonical(crc, d, m);
    var p := FirstId(m);
    var q := if p == 0 then 1 else 0;
    RenumberedIsSound(m, p, q);
    RenumberedIsSame(m, p, q);
    RenumberedIsOther(m, q);
    RivalFile(crc, d, m, RenumberedMap(m, p, q));
  }
}
