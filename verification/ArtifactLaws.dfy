/** What writing and opening owe each other, over every Map and every byte string. */
module ArtifactLaws {
  import opened Words
  import opened Addr
  import opened Values
  import opened Groups
  import opened Store
  import opened Format
  import opened Framing
  import opened RoundTrip
  import opened Canonical

  /** An empty family's arrays do not matter to the check. */
  lemma ReopenedVerdict(m: Map)
    ensures MapVerdict(Reopened(m)) == MapVerdict(m)
  {
  }

  /** Opening what was written: the outcome is decided by the Map alone, and what is accepted is that Map. */
  lemma OpenWrite(crc: Checksum, m: Map)
    requires Geometry(m)
    ensures Open(crc, Write(crc, m)) ==
            match MapVerdict(m)
            case Good => Accepted(Reopened(m))
            case Bad => Rejected
            case Panic => Panicked
  {
    WriteIsFramed(crc, m);
    ReopenedVerdict(m);
  }

  /** No file is longer than a slice can be, so every one that is written can be opened. */
  lemma WrittenFits(crc: Checksum, m: Map)
    requires Geometry(m)
    ensures |Write(crc, m)| <= MAX_I64
  {
    CountsAgree(m);
    LengthsFit(CountsFor(m));
    Pieces(crc, Small(m), Large(m), Sections(m));
    EndsAtEof(Sections(m));
    OffsetsFit(Lengths(Sections(m)), SECTIONS);
  }

  /** Different Maps are written differently: one file never stands for two. */
  lemma WriteIsInjective(crc: Checksum, m: Map, m': Map)
    requires Geometry(m) && Geometry(m')
    ensures Write(crc, m) == Write(crc, m') <==> Reopened(m) == Reopened(m')
  {
    WriteIsFramed(crc, m);
    WriteIsFramed(crc, m');
    FramedIsCanonical(crc, Write(crc, m));
    FramedIsCanonical(crc, Write(crc, m'));
  }

  /** For a well-shaped Map, passing validate is exactly meeting everything a lookup relies on. */
  lemma ValidateIsExact(m: Map)
    requires Geometry(m)
    ensures MapVerdict(m) == Good <==> Valid(Reopened(m))
  {
  }

  /** Whatever is accepted re-serialises byte for byte, and every lookup on it stays in bounds. */
  lemma AcceptedIsCanonical(crc: Checksum, d: seq<byte>, m: Map)
    requires Open(crc, d) == Accepted(m)
    ensures Geometry(m) && Write(crc, m) == d && Reopened(m) == m && Valid(m)
  {
    FramedIsCanonical(crc, d);
    ValidateIsExact(m);
  }

  /** Every entry of an accepted file resolves to a value of the file's width, within its arrays. */
  lemma AcceptedEntriesResolve(crc: Checksum, d: seq<byte>, m: Map)
    requires Open(crc, d) == Accepted(m)
    ensures forall i: nat :: i < m.stats.addrs4 ==> Readable(m.s4.vals, i) && |Get(m.s4.vals, i)| == m.valLen
    ensures forall i: nat :: i < m.stats.addrs6 ==> Readable(m.s6.vals, i) && |Get(m.s6.vals, i)| == m.valLen
  {
    AcceptedIsCanonical(crc, d, m);
    forall i: nat | i < m.stats.addrs4 ensures Readable(m.s4.vals, i) && |Get(m.s4.vals, i)| == m.valLen {
      ShapedIsReadable(m.s4.vals, m.stats.addrs4, m.valLen, m.stats.distinct, i);
    }
    forall i: nat | i < m.stats.addrs6 ensures Readable(m.s6.vals, i) && |Get(m.s6.vals, i)| == m.valLen {
      ShapedIsReadable(m.s6.vals, m.stats.addrs6, m.valLen, m.stats.distinct, i);
    }
  }

  ghost predicate IsArtifactOf(crc: Checksum, d: seq<byte>, m: Map) {
    Geometry(m) && Valid(Reopened(m)) && Write(crc, m) == d
  }

  /** The accepted byte strings are exactly the artifacts of well-shaped Maps whose lookups are sound. */
  lemma AcceptedExactly(crc: Checksum, d: seq<byte>)
    ensures Open(crc, d).Accepted? <==> exists m :: IsArtifactOf(crc, d, m)
  {
    if Open(crc, d).Accepted? {
      AcceptedIsCanonical(crc, d, Open(crc, d).m);
      assert IsArtifactOf(crc, d, Open(crc, d).m);
    }
    if m :| IsArtifactOf(crc, d, m) {
      OpenWrite(crc, m);
      ValidateIsExact(m);
    }
  }

  lemma ReopenedAnswer(m: Map, k: Key)
    requires Valid(m)
    ensures Answer(Reopened(m), k) == Answer(m, k)
  {
  }

  /** Resetting an empty family changes no answer. */
  lemma ReopenedAnswers(m: Map, addr: Address)
    requires Valid(m)
    ensures Lookup(Reopened(m), addr) == Lookup(m, addr)
  {
  }

  /** Nor any section. */
  lemma ReopenedSections(m: Map)
    requires Geometry(m)
    ensures Sliceable(Reopened(m)) && Sections(Reopened(m)) == Sections(m)
  {
    assert Sections4(Reopened(m)) == Sections4(m);
    assert Sections6(Reopened(m)) == Sections6(m);
    if Interned(m) {
      TabSize(m);
      assert TabBytes(Reopened(m)) == TabBytes(m);
    }
  }

  /** A caller cannot tell the two Maps apart at `addr`, nor by their counts, value width or epoch. */
  ghost predicate Indistinct(m: Map, m': Map, addr: Address) {
    && Lookup(m, addr) == Lookup(m', addr)
    && m.stats == m'.stats && m.valLen == m'.valLen && m.epoch == m'.epoch
  }

  /** Writing a sound Map and opening the bytes gives a Map with the same answers, counts, width and epoch. */
  lemma RoundTripKeepsAnswers(crc: Checksum, m: Map, addr: Address)
    requires Geometry(m) && Valid(m)
    ensures var r := Open(crc, Write(crc, m)); r.Accepted? && Valid(r.m) && Indistinct(r.m, m, addr)
  {
    OpenWrite(crc, m);
    ReopenedValid(m);
    ValidateIsExact(m);
    ReopenedAnswers(m, addr);
  }

  lemma ReopenedValid(m: Map)
    requires Valid(m)
    ensures Valid(Reopened(m))
  {
  }

  // ---- the one way openBytes can fail to return ----

  /** The check of one family leaves its array: some group runs past the entries and all before it are in order. */
  ghost predicate Leaves(idx: seq<u32>, suffix: seq<nat>, n: nat, minGroup: nat) {
    n > 0 && ReadsPast(idx, suffix, n, minGroup)
  }

  lemma LeavesIsNotOk(idx: seq<u32>, suffix: seq<nat>, n: nat, minGroup: nat)
    requires ReadsPast(idx, suffix, n, minGroup)
    ensures GroupsVerdict(idx, suffix, n, minGroup) == Panic
  {
    var h: nat :| 1 <= h < |idx| && Overruns(idx, suffix, minGroup, h)
                  && forall k: nat :: 1 <= k < h ==> GroupOk(idx, suffix, minGroup, k);
    OverrunIsNotOk(idx, suffix, minGroup, h);
  }

  /** What opening returns is a Map or an error exactly when neither family's check leaves its array. */
  lemma OpenPanicsExactly(crc: Checksum, d: seq<byte>)
    ensures Open(crc, d) == Panicked <==>
            && FramingOk(crc, d)
            && var m := MapIn(crc, d);
               || Leaves(m.s4.idx, m.s4.suffix, m.stats.addrs4, 0)
               || (&& (m.stats.addrs4 > 0 ==> GroupsOk(m.s4.idx, m.s4.suffix, m.stats.addrs4, 0))
                   && StrictlyAscending(m.s6.prefix)
                   && Leaves(m.s6.pidx, m.s6.suffix, m.stats.addrs6, 1))
  {
    if FramingOk(crc, d) {
      PanicVerdict(MapIn(crc, d));
    }
  }

  lemma PanicVerdict(m: Map)
    ensures MapVerdict(m) == Panic <==>
            || Leaves(m.s4.idx, m.s4.suffix, m.stats.addrs4, 0)
            || (&& (m.stats.addrs4 > 0 ==> GroupsOk(m.s4.idx, m.s4.suffix, m.stats.addrs4, 0))
                && StrictlyAscending(m.s6.prefix)
                && Leaves(m.s6.pidx, m.s6.suffix, m.stats.addrs6, 1))
  {
    if ReadsPast(m.s4.idx, m.s4.suffix, m.stats.addrs4, 0) {
      LeavesIsNotOk(m.s4.idx, m.s4.suffix, m.stats.addrs4, 0);
    }
    if ReadsPast(m.s6.pidx, m.s6.suffix, m.stats.addrs6, 1) {
      LeavesIsNotOk(m.s6.pidx, m.s6.suffix, m.stats.addrs6, 1);
    }
  }

  /** Files whose every offset is within its family's entries are always answered. */
  lemma BoundedOffsetsAreAnswered(crc: Checksum, d: seq<byte>)
    requires FramingOk(crc, d)
    requires var m := MapIn(crc, d);
             && (forall h :: 0 <= h < |m.s4.idx| ==> m.s4.idx[h] <= m.stats.addrs4)
             && (forall h :: 0 <= h < |m.s6.pidx| ==> m.s6.pidx[h] <= m.stats.addrs6)
    ensures Open(crc, d) != Panicked
  {
    FramedIsCanonical(crc, d);
    PanicVerdict(MapIn(crc, d));
  }

  /** Two 128-bit entries under two prefixes, with the middle offset beyond the entries. */
  ghost predicate Stray(m: Map) {
    && m.s4 == EMPTY4 && m.valLen == 1 && m.stats == Stats(0, 2, 0, 0, 0)
    && m.s6.prefix == [1, 2] && m.s6.pidx == [0, 4, 2] && m.s6.suffix == [5, 6]
    && m.s6.vals == Values(1, [7, 8], [], [], 0)
  }

  lemma StrayIsShaped(m: Map)
    requires Stray(m)
    ensures Geometry(m) && MapVerdict(m) == Panic
  {
    InteriorOffsetPanics();
  }

  lemma WrittenPanic(crc: Checksum, m: Map)
    requires Geometry(m) && MapVerdict(m) == Panic
    ensures FramingOk(crc, Write(crc, m)) && Open(crc, Write(crc, m)) == Panicked
  {
    WriteIsFramed(crc, m);
    OpenWrite(crc, m);
  }

  lemma StrayExists() returns (m: Map)
    ensures Stray(m)
  {
    m := Map(EMPTY4, Store6([1, 2], [0, 4, 2], [5, 6], Values(1, [7, 8], [], [], 0)), 1, 0, Stats(0, 2, 0, 0, 0));
  }

  /** Whatever the checksum, some file passes every framing check and makes the group check read out of range. */
  lemma StrayOffsetPanics(crc: Checksum)
    ensures exists d :: FramingOk(crc, d) && Open(crc, d) == Panicked
  {
    var m := StrayExists();
    StrayPanics(crc, m);
  }

  lemma StrayPanics(crc: Checksum, m: Map)
    requires Stray(m)
    ensures Sliceable(m) && FramingOk(crc, Write(crc, m)) && Open(crc, Write(crc, m)) == Panicked
  {
    StrayIsShaped(m);
    WrittenPanic(crc, m);
  }
}
