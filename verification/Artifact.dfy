/** format.go: WriteTo, openBytes and validate themselves. */
module Artifact {
  import opened Words
  import opened LittleEndian
  import opened Values
  import opened Store
  import opened Format

  // ---- writing ----

  /** A 64-bit sum that wraps is written as the sum itself would be: only its low bytes are kept. */
  lemma {:induction false} EncodeWraps(x: nat, q: nat, w: nat)
    ensures Encode(x + q * Pow256(w), w) == Encode(x, w)
  {
    if w > 0 {
      var t := q * Pow256(w - 1);
      TimesPow(q, w);
      ShiftedByte(x, t);
      EncodeWraps(x / 256, q, w - 1);
    }
  }

  lemma TimesPow(q: nat, w: nat)
    requires w > 0
    ensures q * Pow256(w) == 256 * (q * Pow256(w - 1))
  {
  }

  lemma ShiftedByte(x: nat, t: nat)
    ensures (x + 256 * t) % 256 == x % 256 && (x + 256 * t) / 256 == x / 256 + t
  {
  }

  function Wrap64(x: nat): u64 {
    x % 0x1_0000_0000_0000_0000
  }

  lemma WrapEncodes(x: nat)
    ensures Encode(Wrap64(x), 8) == Encode(x, 8)
  {
    Pow256Values();
    EncodeWraps(Wrap64(x), x / 0x1_0000_0000_0000_0000, 8);
  }

  /** The bytes from `at` on are zero. */
  ghost predicate ZeroFrom(b: seq<byte>, at: nat) {
    forall k :: at <= k < |b| ==> b[k] == 0
  }

  /** Writes words one after the other, as a run of PutUint32 or PutUint64 calls does. */
  method PutWords(hdr: array<byte>, at: nat, w: nat, xs: seq<nat>)
    requires at + |xs| * w <= hdr.Length && ZeroFrom(hdr[..], at)
    modifies hdr
    ensures hdr[..at + |xs| * w] == old(hdr[..at]) + Pack(w, xs) && ZeroFrom(hdr[..], at + |xs| * w)
  {
    ghost var rows := EncodeAll(w, xs);
    ghost var base, done := hdr[..at], Concat(rows[..0]);
    var i, next := 0, at;
    while i < |xs|
      invariant 0 <= i <= |xs| && next == at + i * w <= hdr.Length && done == Concat(rows[..i])
      invariant hdr[..next] == base + done && ZeroFrom(hdr[..], next)
    {
      MulMono(i + 1, |xs|, w);
      NextRow(i, w);
      PutNext(hdr, next, w, xs[i], base, done);
      ConcatTake(rows, i);
      done := done + rows[i];
      i, next := i + 1, next + w;
    }
    assert rows[..|xs|] == rows;
  }

  lemma Append3(a: seq<byte>, b: seq<byte>, c: seq<byte>)
    ensures (a + b) + c == a + (b + c)
  {
  }

  method PutNext(hdr: array<byte>, at: nat, w: nat, x: nat, ghost base: seq<byte>, ghost done: seq<byte>)
    requires at + w <= hdr.Length && ZeroFrom(hdr[..], at) && hdr[..at] == base + done
    modifies hdr
    ensures hdr[..at + w] == base + (done + Encode(x, w)) && ZeroFrom(hdr[..], at + w)
  {
    PutWord(hdr, at, w, x);
    Append3(base, done, Encode(x, w));
  }

  method PutWord(hdr: array<byte>, at: nat, w: nat, x: nat)
    requires at + w <= hdr.Length && ZeroFrom(hdr[..], at)
    modifies hdr
    ensures hdr[..at + w] == old(hdr[..at]) + Encode(x, w) && ZeroFrom(hdr[..], at + w)
  {
    PutBytes(hdr, at, w, x);
    assert hdr[..at + w] == old(hdr[..at]) + Encode(x, w);
    assert forall k :: at + w <= k < hdr.Length ==> hdr[k] == old(hdr[at + w..])[k - at - w];
  }

  lemma TailIsZero(h: seq<byte>, at: nat, a: seq<byte>)
    requires ZeroFrom(h, at) && at + 4 <= |h| && h[..at] == a
    ensures h[..at + 4] == a + [0, 0, 0, 0]
  {
    assert h[..at + 4] == h[..at] + h[at..at + 4];
  }

  /** One row of the section table, whose offset is a 64-bit sum; the row's last four bytes stay zero. */
  method PutRow(hdr: array<byte>, at: nat, off: u64, len: nat, sum: u32, ghost exact: nat)
    requires at + 24 <= hdr.Length && ZeroFrom(hdr[..], at) && off == Wrap64(exact)
    modifies hdr
    ensures hdr[..at + 24] == old(hdr[..at]) + Row(exact, len, sum) && ZeroFrom(hdr[..], at + 24)
  {
    ghost var base := hdr[..at];
    PutWord(hdr, at, 8, off);
    PutWord(hdr, at + 8, 8, len);
    PutWord(hdr, at + 16, 4, sum);
    TailIsZero(hdr[..], at + 20, base + Encode(off, 8) + Encode(len, 8) + Encode(sum, 4));
    WrapEncodes(exact);
    Reassociate(base, Encode(off, 8), Encode(len, 8), Encode(sum, 4), [0, 0, 0, 0]);
  }

  lemma Reassociate(base: seq<byte>, a: seq<byte>, b: seq<byte>, c: seq<byte>, z: seq<byte>)
    ensures (base + a + b + c) + z == base + (a + b + c + z)
  {
  }

  /** The table's rows, one section after the other; `off` is a 64-bit sum. */
  method PutTable(hdr: array<byte>, crc: Checksum, secs: seq<seq<byte>>,
                  ghost lens: seq<nat>, ghost rows: seq<seq<byte>>)
    requires hdr.Length == HEADER && |secs| == |lens| == |rows| == SECTIONS && ZeroFrom(hdr[..], 80)
    requires forall i: nat :: i < SECTIONS ==> RowFor(crc, secs[i], lens, rows, i)
    modifies hdr
    ensures hdr[..272] == old(hdr[..80]) + Concat(rows) && ZeroFrom(hdr[..], 272)
  {
    var off: u64 := HEADER;
    ghost var base, done := hdr[..80], Concat(rows[..0]);
    var i := 0;
    while i < SECTIONS
      invariant 0 <= i <= SECTIONS && off == Wrap64(OffsetAt(lens, i)) && done == Concat(rows[..i])
      invariant hdr[..80 + i * 24] == base + done && ZeroFrom(hdr[..], 80 + i * 24)
    {
      assert RowFor(crc, secs[i], lens, rows, i);
      off := PutSectionRow(hdr, 80 + i * 24, crc, secs[i], off, base, done, lens, rows, i);
      ConcatTake(rows, i);
      done := done + rows[i];
      i := i + 1;
    }
    assert rows[..SECTIONS] == rows;
  }

  ghost predicate RowFor(crc: Checksum, s: seq<byte>, lens: seq<nat>, rows: seq<seq<byte>>, i: nat) {
    && i < |lens| && i < |rows| && lens[i] == |s|
    && rows[i] == Row(OffsetAt(lens, i), |s|, crc(s))
  }

  method PutSectionRow(hdr: array<byte>, at: nat, crc: Checksum, s: seq<byte>, off: u64, ghost base: seq<byte>,
                       ghost done: seq<byte>, ghost lens: seq<nat>, ghost rows: seq<seq<byte>>, ghost i: nat)
    returns (next: u64)
    requires at + 24 <= hdr.Length && ZeroFrom(hdr[..], at) && hdr[..at] == base + done
    requires RowFor(crc, s, lens, rows, i) && off == Wrap64(OffsetAt(lens, i))
    modifies hdr
    ensures hdr[..at + 24] == base + (done + rows[i]) && ZeroFrom(hdr[..], at + 24)
    ensures next == Wrap64(OffsetAt(lens, i + 1))
  {
    PutRow(hdr, at, off, |s|, crc(s), OffsetAt(lens, i));
    Append3(base, done, rows[i]);
    WrapAdd(OffsetAt(lens, i), Pad8(|s|));
    next := Wrap64(off + Pad8(|s|));
  }

  lemma WrapAdd(a: nat, b: nat)
    ensures Wrap64(Wrap64(a) + b) == Wrap64(a + b)
  {
  }

  lemma RowsFor(crc: Checksum, secs: seq<seq<byte>>)
    ensures forall i: nat :: i < |secs| ==> RowFor(crc, secs[i], Lengths(secs), TableRows(crc, secs), i)
  {
  }

  /** The header up to its checksum. */
  method WriteHead(crc: Checksum, small: seq<nat>, large: seq<nat>, secs: seq<seq<byte>>) returns (hdr: array<byte>)
    requires |small| == 4 && |large| == 7 && |secs| == SECTIONS
    ensures fresh(hdr) && hdr.Length == HEADER && ZeroFrom(hdr[..], 272)
    ensures hdr[..272] == Head(small, large, TableRows(crc, secs))
  {
    hdr := new byte[HEADER](k requires 0 <= k < HEADER => if k < 8 then MAGIC[k] else 0);
    assert hdr[..8] == MAGIC;
    PutWords(hdr, 8, 4, small);
    PutWords(hdr, 24, 8, large);
    RowsFor(crc, secs);
    PutTable(hdr, crc, secs, Lengths(secs), TableRows(crc, secs));
  }

  method WriteHeader(crc: Checksum, small: seq<nat>, large: seq<nat>, secs: seq<seq<byte>>) returns (hdr: array<byte>)
    requires |small| == 4 && |large| == 7 && |secs| == SECTIONS
    ensures fresh(hdr) && hdr[..] == WithSum(crc, Head(small, large, TableRows(crc, secs)))
  {
    hdr := WriteHead(crc, small, large, secs);
    PutWords(hdr, 272, 4, [crc(hdr[..272]), 0]);
    assert hdr[..280] == hdr[..];
  }

  /** One section and the zeros after it, counted as they go out. */
  method Emit(out: seq<byte>, total: nat, s: seq<byte>) returns (r: seq<byte>, n: nat)
    requires total == |out|
    ensures r == out + Padded(s) && n == |r|
  {
    r, n := out + s, total + |s|;
    var p := Pad8(|s|) - |s|;
    if p > 0 {
      r, n := r + Format.Zeros(p), n + p;
    }
  }

  method EmitAll(hdr: seq<byte>, secs: seq<seq<byte>>, ghost padded: seq<seq<byte>>)
    returns (out: seq<byte>, total: nat)
    requires |padded| == |secs| && forall i :: 0 <= i < |secs| ==> padded[i] == Padded(secs[i])
    ensures out == hdr + Concat(padded) && total == |out|
  {
    out, total := hdr, |hdr|;
    ghost var done := Concat(padded[..0]);
    var i := 0;
    while i < |secs|
      invariant 0 <= i <= |secs| && total == |out|
      invariant out == hdr + done && done == Concat(padded[..i])
    {
      out, total := Emit(out, total, secs[i]);
      ConcatTake(padded, i);
      Append3(hdr, done, padded[i]);
      done := done + padded[i];
      i := i + 1;
    }
    assert padded[..|secs|] == padded;
  }

  /** WriteTo: the header, then every section and its padding. */
  method WriteTo(crc: Checksum, m: Map) returns (out: seq<byte>, total: nat)
    requires Sliceable(m)
    ensures out == Write(crc, m) && total == |out|
  {
    var secs := Sections(m);
    var hdr := WriteHeader(crc, Small(m), Large(m), secs);
    out, total := EmitAll(hdr[..], secs, PaddedAll(secs));
  }
}
