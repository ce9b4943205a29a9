/** newValues and setVal: filling the value slots of the kept entries, one after the other. */
module Fill {
  import opened Words
  import opened LittleEndian
  import opened History
  import opened Survivors
  import opened Values
  import opened Layout
  import opened Compaction

  /** The width of a slot: a value, or an id of the width the distinct count needs. */
  ghost function SlotWidth(opt: Options, log: Log): nat {
    if opt.intern then IdWidth(|Table(log)|) else opt.valLen
  }

  /** What a slot holds for the Add at sequence number `i`. */
  ghost function SlotBytes(opt: Options, log: Log, i: nat): (b: seq<byte>)
    requires i < |log|
  {
    if opt.intern then Encode(IdOf(log, i), IdWidth(|Table(log)|)) else log[i].val
  }

  /** What the slot of an entry word holds, at the width every slot has. */
  ghost predicate SlotFor(f: Fields, log: Log, w: nat, word: nat, row: seq<byte>) {
    SeqOf(word) < |log| && w == SlotWidth(f.opt, log) && row == SlotBytes(f.opt, log, SeqOf(word))
  }

  /** The slots of the kept entries. */
  ghost predicate SlotsFor(f: Fields, log: Log, w: nat, kept: seq<nat>, rows: seq<seq<byte>>) {
    |rows| == |kept| && forall i: nat :: i < |kept| ==> SlotFor(f, log, w, kept[i], rows[i])
  }

  ghost function SlotRows(f: Fields, log: Log, w: nat, kept: seq<nat>): (rows: seq<seq<byte>>)
    requires Recorded(log, kept) && w == SlotWidth(f.opt, log)
    ensures SlotsFor(f, log, w, kept, rows)
  {
    seq(|kept|, i requires 0 <= i < |kept| => SlotBytes(f.opt, log, SeqOf(kept[i])))
  }

  /** The first `i` slots are filled. */
  ghost predicate Filled(b: seq<byte>, rows: seq<seq<byte>>, w: nat, i: nat) {
    i <= |rows| && |b| == |rows| * w && i * w <= |b| && b[..i * w] == Concat(rows[..i])
  }

  /** One slot written in place. */
  ghost predicate SlotWritten(before: seq<byte>, after: seq<byte>, w: nat, at: nat, slot: seq<byte>) {
    && |after| == |before| && |slot| == w && (at + 1) * w <= |before| && at * w <= |before|
    && after == before[..at * w] + slot + before[(at + 1) * w..]
  }

  lemma FilledStep(before: seq<byte>, after: seq<byte>, rows: seq<seq<byte>>, w: nat, i: nat)
    requires i < |rows| && Filled(before, rows, w, i) && SlotWritten(before, after, w, i, rows[i])
    ensures Filled(after, rows, w, i + 1)
  {
    NextRow(i, w);
    assert rows[..i + 1] == rows[..i] + [rows[i]];
    ConcatPush(rows[..i], rows[i]);
    assert after[..(i + 1) * w] == before[..i * w] + rows[i];
  }

  lemma FilledStart(b: seq<byte>, rows: seq<seq<byte>>, w: nat)
    requires |b| == |rows| * w
    ensures Filled(b, rows, w, 0)
  {
    assert b[..0 * w] == [];
    assert rows[..0] == [];
  }

  lemma FilledEnd(b: seq<byte>, rows: seq<seq<byte>>, w: nat)
    requires Filled(b, rows, w, |rows|)
    ensures b == Concat(rows)
  {
    assert rows[..|rows|] == rows && b[..|rows| * w] == b;
  }

  lemma SlotFitsIn(i: nat, n: nat, w: nat)
    requires i < n
    ensures (i + 1) * w <= n * w && i * w + w == (i + 1) * w
  {
    MulMono(i + 1, n, w);
  }

  /** newValues: the slots of `n` entries, not yet filled. */
  method NewValues(f: Fields, ghost log: Log, distinct: nat, n: nat) returns (buf: array<byte>, w: nat)
    requires Records(f, log) && (f.opt.intern ==> distinct == |Table(log)|)
    ensures fresh(buf) && w == SlotWidth(f.opt, log) && buf.Length == n * w
  {
    w := if f.opt.intern then IdWidth(distinct) else f.opt.valLen;
    buf := new byte[n * w](_ => 0);
  }

  /**
   * setVal: an id packed, or a value copied, into slot `at`. An id always fits the width, so putID never panics, and
   * the 32-bit sum `sq + 1` never wraps.
   */
  method SetVal(f: Fields, ghost log: Log, buf: array<byte>, w: nat, at: nat, sq: nat,
                ghost word: nat, ghost row: seq<byte>)
    requires Records(f, log) && SlotFor(f, log, w, word, row) && sq == SeqOf(word) && (at + 1) * w <= buf.Length
    modifies buf
    ensures SlotWritten(old(buf[..]), buf[..], w, at, row)
  {
    NextRow(at, w);
    assert RecordsAt(f, log, sq);
    if f.opt.intern {
      IdsFit(log, sq);
      PutId(buf, w, at, f.ids[sq]);
    } else {
      var next: u32 := sq + 1;
      NextRow(sq, w);
      CopyInto(buf, at * w, f.vals[sq * w..next * w]);
    }
  }

  lemma IdsFit(log: Log, i: nat)
    requires Capped(log) && i < |log|
    ensures IdFits(IdWidth(|Table(log)|), IdOf(log, i))
  {
  }

  method CopyInto(buf: array<byte>, at: nat, src: seq<byte>)
    requires at + |src| <= buf.Length
    modifies buf
    ensures buf[..] == old(buf[..at]) + src + old(buf[at + |src|..])
  {
    forall i | 0 <= i < |src| {
      buf[at + i] := src[i];
    }
  }

  /** The filled slots, with the shared table in interned mode. */
  method Freeze(f: Fields, ghost log: Log, buf: array<byte>, w: nat, ghost kept: seq<nat>, ghost rows: seq<seq<byte>>)
    returns (v: Values)
    requires Records(f, log) && Recorded(log, kept) && w == SlotWidth(f.opt, log)
    requires SlotsFor(f, log, w, kept, rows) && buf[..] == Concat(rows)
    ensures v == LaidValues(f.opt, log, kept)
  {
    SlotsAreLaid(f, log, w, kept, rows);
    if f.opt.intern {
      TabIsTable(f, log);
      v := Values(f.opt.valLen, [], f.tab, buf[..], w);
    } else {
      v := Values(f.opt.valLen, buf[..], [], [], 0);
    }
  }

  lemma SlotsAreLaid(f: Fields, log: Log, w: nat, kept: seq<nat>, rows: seq<seq<byte>>)
    requires Recorded(log, kept) && SlotsFor(f, log, w, kept, rows)
    ensures rows == if f.opt.intern then EncodeAll(w, Ids(log, kept)) else Rows(log, kept)
  {
    forall i: nat | i < |kept|
      ensures rows[i] == if f.opt.intern then Encode(Ids(log, kept)[i], w) else Rows(log, kept)[i]
    {
      assert SlotFor(f, log, w, kept[i], rows[i]);
    }
  }

  lemma TabIsTable(f: Fields, log: Log)
    requires Records(f, log) && f.opt.intern
    ensures f.tab == Concat(Table(log))
  {
    assert RowAt(f, log, 0);
    forall id: nat | id < |Table(log)| ensures SlotIs(f.tab, f.opt.valLen, id, Table(log)[id]) {
      assert RowAt(f, log, id);
    }
    SlotsDetermine(f.tab, Table(log), f.opt.valLen);
  }
}
