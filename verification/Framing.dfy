/** Reading back what was written, and writing back what was read, field by field. */
module Framing {
  import opened Words
  import opened LittleEndian
  import opened Values
  import opened Store
  import opened Format

  // ---- numbers in byte strings ----

  ghost predicate Holds(d: seq<byte>, at: nat, b: seq<byte>) {
    at + |b| <= |d| && d[at..at + |b|] == b
  }

  lemma SubSlice(d: seq<byte>, at: nat, end: nat, off: nat, off': nat)
    requires at <= end <= |d| && off <= off' <= end - at
    ensures d[at..end][off..off'] == d[at + off..at + off']
  {
    var x, y := d[at..end][off..off'], d[at + off..at + off'];
    forall k | 0 <= k < |x| ensures x[k] == y[k] {
      assert x[k] == d[at..end][off + k];
    }
  }

  lemma HoldsWithin(d: seq<byte>, at: nat, b: seq<byte>, off: nat, c: seq<byte>)
    requires Holds(d, at, b) && Holds(b, off, c)
    ensures Holds(d, at + off, c)
  {
    SubSlice(d, at, at + |b|, off, off + |c|);
  }

  lemma PackHolds(w: nat, xs: seq<nat>, k: nat)
    requires k < |xs|
    ensures Holds(Pack(w, xs), k * w, Encode(xs[k], w))
  {
    ConcatSlot(EncodeAll(w, xs), w, k);
    assert k * w + w == (k + 1) * w;
  }

  lemma DecodeHeld(d: seq<byte>, at: nat, x: nat, w: nat)
    requires Holds(d, at, Encode(x, w)) && x < Pow256(w)
    ensures at + w <= |d| && Decode(d[at..at + w]) == x
  {
    DecodeEncode(x, w);
  }

  /** A packed word, `off` bytes in, is read back. */
  lemma PackedWord(d: seq<byte>, at: nat, w: nat, xs: seq<nat>, k: nat, off: nat)
    requires Holds(d, at, Pack(w, xs)) && k < |xs| && xs[k] < Pow256(w) && off == k * w
    ensures at + off + w <= |d| && Decode(d[at + off..at + off + w]) == xs[k]
  {
    PackHolds(w, xs, k);
    DecodeWithin(d, at, Pack(w, xs), off, xs[k], w);
  }

  lemma DecodeWithin(d: seq<byte>, at: nat, b: seq<byte>, off: nat, x: nat, w: nat)
    requires Holds(d, at, b) && Holds(b, off, Encode(x, w)) && x < Pow256(w)
    ensures at + off + w <= |d| && Decode(d[at + off..at + off + w]) == x
  {
    HoldsWithin(d, at, b, off, Encode(x, w));
    DecodeHeld(d, at + off, x, w);
  }

  lemma PackedU32(d: seq<byte>, at: nat, xs: seq<nat>, k: nat)
    requires Holds(d, at, Pack(4, xs)) && k < |xs| && xs[k] < 0x1_0000_0000
    ensures at + k * 4 + 4 <= |d| && U32(d, at + k * 4) == xs[k]
  {
    Pow256Values();
    PackedWord(d, at, 4, xs, k, k * 4);
  }

  lemma PackedU64(d: seq<byte>, at: nat, xs: seq<nat>, k: nat)
    requires Holds(d, at, Pack(8, xs)) && k < |xs| && xs[k] < 0x1_0000_0000_0000_0000
    ensures at + k * 8 + 8 <= |d| && U64(d, at + k * 8) == xs[k]
  {
    Pow256Values();
    PackedWord(d, at, 8, xs, k, k * 8);
  }

  // ---- sections one after the other ----

  lemma {:induction false} ConcatPrefix(rows: seq<seq<byte>>, i: nat)
    requires i <= |rows|
    ensures |Concat(rows[..i])| <= |Concat(rows)| && Concat(rows)[..|Concat(rows[..i])|] == Concat(rows[..i])
    decreases |rows| - i
  {
    if i == |rows| {
      assert rows[..i] == rows;
    } else {
      ConcatPrefix(rows, i + 1);
      assert rows[..i + 1][..i] == rows[..i];
      assert Concat(rows[..i + 1]) == Concat(rows[..i]) + rows[i];
      var k := |Concat(rows[..i])|;
      assert Concat(rows)[..k] == Concat(rows)[..|Concat(rows[..i + 1])|][..k];
    }
  }

  /** Row `i` of a concatenation starts where the rows before it end. */
  lemma ConcatHolds(rows: seq<seq<byte>>, i: nat)
    requires i < |rows|
    ensures Holds(Concat(rows), |Concat(rows[..i])|, rows[i])
  {
    ConcatPrefix(rows, i + 1);
    assert rows[..i + 1][..i] == rows[..i];
    var k := |Concat(rows[..i])|;
    assert Concat(rows)[k..k + |rows[i]|] == Concat(rows)[..|Concat(rows[..i + 1])|][k..];
  }

  lemma {:induction false} OffsetIsLength(secs: seq<seq<byte>>, i: nat)
    requires i <= |secs|
    ensures OffsetAt(Lengths(secs), i) == HEADER + |Concat(PaddedAll(secs)[..i])|
  {
    if i > 0 {
      OffsetIsLength(secs, i - 1);
      var p := PaddedAll(secs);
      assert p[..i][..i - 1] == p[..i - 1];
      assert Concat(p[..i]) == Concat(p[..i - 1]) + p[i - 1];
    }
  }

  // ---- what a well-shaped Map's header says ----

  /** The counts and array sizes of a Map fit together; built and opened Maps satisfy this. */
  ghost predicate Geometry(m: Map) {
    var s := m.stats;
    && 1 <= m.valLen <= MAX_VAL_LEN
    && s.addrs4 <= MAX_U32 && s.addrs6 <= MAX_U32 && s.distinct <= MAX_U32
    && s.dups <= MAX_I64 && s.dupConflicts <= s.dups
    && (s.distinct > 0 ==> s.addrs4 + s.addrs6 > 0)
    && |m.s4.suffix| == s.addrs4 && |m.s6.suffix| == s.addrs6
    && (if s.addrs4 > 0 then |m.s4.idx| == GROUPS4 + 1 && Shaped(m.s4.vals, s.addrs4, m.valLen, s.distinct)
        else m.s4.vals.tab == [])
    && (if s.addrs6 > 0 then
          0 < |m.s6.prefix| <= s.addrs6 && |m.s6.pidx| == |m.s6.prefix| + 1
          && Shaped(m.s6.vals, s.addrs6, m.valLen, s.distinct)
        else m.s6.prefix == [])
    && (s.addrs4 > 0 && s.addrs6 > 0 ==> m.s4.vals.tab == m.s6.vals.tab)
  }

  /** The same Map with an empty family's store reset, as opening a file leaves it. */
  function Reopened(m: Map): Map {
    m.(s4 := if m.stats.addrs4 > 0 then m.s4 else EMPTY4, s6 := if m.stats.addrs6 > 0 then m.s6 else EMPTY6)
  }

  function CountsFor(m: Map): Counts {
    Counts(Interned(m), m.valLen, IdW(m), m.epoch, m.stats.addrs4, m.stats.addrs6, |m.s6.prefix|,
           m.stats.distinct, m.stats.dups, m.stats.dupConflicts)
  }

  lemma TabSize(m: Map)
    requires Geometry(m) && Interned(m)
    ensures |TabBytes(m)| == m.stats.distinct * m.valLen
    ensures m.stats.addrs4 > 0 ==> TabBytes(m) == m.s4.vals.tab
    ensures m.stats.addrs6 > 0 ==> TabBytes(m) == m.s6.vals.tab
  {
    MulMono(1, m.stats.distinct, m.valLen);
  }

  lemma PayloadSize(v: Values, n: nat, valLen: nat, distinct: nat)
    requires n > 0 && valLen > 0 && Shaped(v, n, valLen, distinct)
    ensures |Payload(v)| == n * (if distinct > 0 then v.idW else valLen)
    ensures Payload(v) == if distinct > 0 then v.ids else v.direct
  {
    MulMono(1, n, valLen);
  }

  lemma CountsPass(m: Map)
    requires Geometry(m)
    ensures CountsOk(CountsFor(m))
  {
  }

  lemma Lengths4(m: Map)
    requires Geometry(m)
    ensures Lengths(Sections4(m)) == Expected4(CountsFor(m))
  {
    if m.stats.addrs4 > 0 {
      PayloadSize(m.s4.vals, m.stats.addrs4, m.valLen, m.stats.distinct);
    }
  }

  lemma Lengths6(m: Map)
    requires Geometry(m)
    ensures Lengths(Sections6(m)) == Expected6(CountsFor(m))
  {
    if m.stats.addrs6 > 0 {
      PayloadSize(m.s6.vals, m.stats.addrs6, m.valLen, m.stats.distinct);
    }
  }

  lemma LengthsConcat(a: seq<seq<byte>>, b: seq<seq<byte>>)
    ensures Lengths(a + b) == Lengths(a) + Lengths(b)
  {
  }

  /** The counts of a well-shaped Map pass the reader's checks, and its sections have the lengths they demand. */
  lemma CountsAgree(m: Map)
    requires Geometry(m)
    ensures CountsOk(CountsFor(m)) && Lengths(Sections(m)) == Expected(CountsFor(m))
  {
    CountsPass(m);
    Lengths4(m);
    Lengths6(m);
    if Interned(m) {
      TabSize(m);
    }
    var tab := if Interned(m) then TabBytes(m) else [];
    LengthsConcat(Sections4(m), Sections6(m));
    LengthsConcat(Sections4(m) + Sections6(m), [tab]);
    assert Lengths([tab]) == [|tab|];
  }

  lemma View32Back(xs: seq<u32>)
    ensures View32(Pack(4, xs)) == xs
  {
    Pow256Values();
    UnpackPack(4, xs);
  }

  lemma View64Back(xs: seq<u64>)
    ensures View64(Pack(8, xs)) == xs
  {
    Pow256Values();
    UnpackPack(8, xs);
  }

  lemma ValuesBack(m: Map, v: Values, n: nat)
    requires Geometry(m) && n > 0 && Shaped(v, n, m.valLen, m.stats.distinct)
    requires Interned(m) ==> TabBytes(m) == v.tab
    ensures ValuesOver(CountsFor(m), Payload(v), if Interned(m) then TabBytes(m) else []) == v
  {
    PayloadSize(v, n, m.valLen, m.stats.distinct);
  }

  lemma View4Back(m: Map, tab: seq<byte>)
    requires Geometry(m) && m.stats.addrs4 > 0 && tab == if Interned(m) then TabBytes(m) else []
    ensures Store4(View32(Pack(4, m.s4.idx)), m.s4.suffix, ValuesOver(CountsFor(m), Payload(m.s4.vals), tab)) == m.s4
  {
    if Interned(m) {
      TabSize(m);
    }
    View32Back(m.s4.idx);
    ValuesBack(m, m.s4.vals, m.stats.addrs4);
  }

  lemma View6Back(m: Map, tab: seq<byte>)
    requires Geometry(m) && m.stats.addrs6 > 0 && tab == if Interned(m) then TabBytes(m) else []
    ensures Store6(View64(Pack(8, m.s6.prefix)), View32(Pack(4, m.s6.pidx)), View64(Pack(8, m.s6.suffix)),
                   ValuesOver(CountsFor(m), Payload(m.s6.vals), tab)) == m.s6
  {
    if Interned(m) {
      TabSize(m);
    }
    View64Back(m.s6.prefix);
    View64Back(m.s6.suffix);
    View32Back(m.s6.pidx);
    ValuesBack(m, m.s6.vals, m.stats.addrs6);
  }

  lemma SectionsOf(m: Map)
    requires Geometry(m)
    ensures var secs, tab := Sections(m), if Interned(m) then TabBytes(m) else [];
            && secs[..3] == Sections4(m) && secs[3..7] == Sections6(m) && secs[7] == tab
  {
  }

  lemma View4OfSections(m: Map, secs: seq<seq<byte>>)
    requires Geometry(m) && |secs| == SECTIONS && secs[..3] == Sections4(m)
    requires secs[7] == if Interned(m) then TabBytes(m) else []
    ensures ViewOf(CountsFor(m), secs).s4 == Reopened(m).s4
  {
    assert secs[0] == secs[..3][0] && secs[1] == secs[..3][1] && secs[2] == secs[..3][2];
    if m.stats.addrs4 > 0 {
      View4Back(m, secs[7]);
    }
  }

  lemma View6OfSections(m: Map, secs: seq<seq<byte>>)
    requires Geometry(m) && |secs| == SECTIONS && secs[3..7] == Sections6(m)
    requires secs[7] == if Interned(m) then TabBytes(m) else []
    ensures ViewOf(CountsFor(m), secs).s6 == Reopened(m).s6
  {
    var s := secs[3..7];
    assert secs[3] == s[0] && secs[4] == s[1] && secs[5] == s[2] && secs[6] == s[3];
    if m.stats.addrs6 > 0 {
      View6Back(m, secs[7]);
      assert m.s6.pidx[..|m.s6.prefix| + 1] == m.s6.pidx;
    }
  }

  /** Viewing the sections of a well-shaped Map gives the Map back. */
  lemma ViewBack(m: Map)
    requires Geometry(m)
    ensures ViewOf(CountsFor(m), Sections(m)) == Reopened(m)
  {
    SectionsOf(m);
    View4OfSections(m, Sections(m));
    View6OfSections(m, Sections(m));
  }
}
