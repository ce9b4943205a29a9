/** values.go: an entry position resolved to its value bytes, stored directly or as a packed id into a table. */
module Values {
  import opened Words
  import opened LittleEndian

  /** The widest value a Builder or a reader allows. */
  const MAX_VAL_LEN: nat := 4096

  /** The source's `values` struct; a nil slice is the empty sequence. */
  datatype Values = Values(valLen: nat, direct: seq<byte>, tab: seq<byte>, ids: seq<byte>, idW: nat)

  const NO_VALUES := Values(0, [], [], [], 0)

  /** The narrowest byte width that holds ids 0..n-1 (at most four bytes). */
  function IdWidth(n: int): (w: nat)
    ensures 1 <= w <= 4
    ensures n <= 0x1_0000_0000 ==> n <= Pow256(w)
    ensures w > 1 ==> Pow256(w - 1) < n
  {
    Pow256Values();
    if n <= 0x100 then 1
    else if n <= 0x1_0000 then 2
    else if n <= 0x100_0000 then 3
    else 4
  }

  /** `n` entries laid out as `distinct` says: zero for the direct layout, otherwise the table's row count. */
  predicate Shaped(v: Values, n: nat, valLen: nat, distinct: nat) {
    && v.valLen == valLen
    && if distinct == 0 then
         |v.direct| == n * valLen && v.tab == [] && v.ids == [] && v.idW == 0
       else
         v.direct == [] && |v.tab| == distinct * valLen && v.idW == IdWidth(distinct) && |v.ids| == n * v.idW
  }

  /** Entry `i` resolves without leaving any of the arrays. */
  predicate Readable(v: Values, i: nat) {
    if v.direct != [] then (i + 1) * v.valLen <= |v.direct|
    else (i + 1) * v.idW <= |v.ids| && (WordAt(v.ids, v.idW, i) + 1) * v.valLen <= |v.tab|
  }

  /** Entry `i`'s value. */
  function Get(v: Values, i: nat): (val: Value)
    requires Readable(v, i)
    ensures |val| == v.valLen
  {
    if v.direct != [] then Slot(v.direct, v.valLen, i)
    else Slot(v.tab, v.valLen, WordAt(v.ids, v.idW, i))
  }

  predicate IdsBelow(v: Values, n: nat, distinct: nat) {
    forall i: nat :: i < n ==> (i + 1) * v.idW <= |v.ids| && WordAt(v.ids, v.idW, i) < distinct
  }

  /** The shape and the id bound are all that a value fetch relies on. */
  lemma ShapedIsReadable(v: Values, n: nat, valLen: nat, distinct: nat, i: nat)
    requires valLen > 0 && i < n && Shaped(v, n, valLen, distinct)
    requires distinct > 0 ==> IdsBelow(v, n, distinct)
    ensures Readable(v, i)
  {
    MulMono(i + 1, n, valLen);
    if distinct == 0 {
      MulMono(1, n, valLen);
    } else {
      MulMono(WordAt(v.ids, v.idW, i) + 1, distinct, valLen);
    }
  }

  /** An id in its slot and a value in its row are read as the value. */
  lemma InternedReads(v: Values, i: nat, id: nat, val: Value)
    requires v.direct == [] && (i + 1) * v.idW <= |v.ids| && WordAt(v.ids, v.idW, i) == id
    requires (id + 1) * v.valLen <= |v.tab| && Slot(v.tab, v.valLen, id) == val
    ensures Readable(v, i) && Get(v, i) == val
  {
  }

  /** The one id decoder, shared by the reader and the open-time check. */
  method Id(v: Values, i: nat) returns (id: nat)
    requires (i + 1) * v.idW <= |v.ids|
    ensures id == WordAt(v.ids, v.idW, i)
  {
    WordAtSlice(v.ids, v.idW, i);
    id := ReadBytes(v.ids, i * v.idW, v.idW);
  }

  /** The bytes of one word, high byte first. */
  method ReadBytes(ids: seq<byte>, at: nat, w: nat) returns (id: nat)
    requires at + w <= |ids|
    ensures id == Decode(ids[at..at + w])
  {
    ghost var slot := ids[at..at + w];
    id := 0;
    var b := w - 1;
    while b >= 0
      invariant -1 <= b < w
      invariant id == Decode(slot[b + 1..])
    {
      assert slot[b..][1..] == slot[b + 1..];
      id := id * 256 + ids[at + b];
      b := b - 1;
    }
    assert slot[0..] == slot;
  }

  method GetValue(v: Values, i: nat) returns (val: Value)
    requires Readable(v, i)
    ensures val == Get(v, i)
  {
    if v.direct != [] {
      return Slot(v.direct, v.valLen, i);
    }
    var id := Id(v, i);
    val := Slot(v.tab, v.valLen, id);
  }

  /** An id that the width can hold; the source panics on any other. */
  predicate IdFits(w: nat, id: nat) {
    w == 4 || id < Pow256(w)
  }

  /** The id bytes after one write. */
  function WithId(ids: seq<byte>, w: nat, i: nat, id: nat): (r: seq<byte>)
    requires (i + 1) * w <= |ids|
    ensures |r| == |ids|
  {
    assert i * w + w == (i + 1) * w;
    ids[..i * w] + Encode(id, w) + ids[(i + 1) * w..]
  }

  method PutId(ids: array<byte>, w: nat, i: nat, id: u32)
    requires 1 <= w <= 4 && IdFits(w, id)
    requires (i + 1) * w <= ids.Length
    modifies ids
    ensures ids[..] == WithId(old(ids[..]), w, i, id)
  {
    var at := i * w;
    assert at + w == (i + 1) * w;
    PutBytes(ids, at, w, id);
  }

  /** The bytes of one word, low byte first. */
  method PutBytes(ids: array<byte>, at: nat, w: nat, id: nat)
    requires at + w <= ids.Length
    modifies ids
    ensures ids[..] == old(ids[..at]) + Encode(id, w) + old(ids[at + w..])
  {
    ghost var before, code := ids[..], Encode(id, w);
    var b := 0;
    while b < w
      invariant 0 <= b <= w
      invariant ids[..at + b] == before[..at] + code[..b]
      invariant ids[at + b..] == before[at + b..]
    {
      EncodeByte(id, w, b);
      ids[at + b] := id / Pow256(b) % 256;
      b := b + 1;
    }
    assert code[..w] == code;
    assert ids[..] == ids[..at + w] + ids[at + w..];
  }

  /** The bytes of one id spliced in at `at`. */
  function Spliced(ids: seq<byte>, at: nat, b: seq<byte>): seq<byte>
    requires at + |b| <= |ids|
  {
    ids[..at] + b + ids[at + |b|..]
  }

  lemma WithIdSplices(ids: seq<byte>, w: nat, i: nat, id: nat, at: nat)
    requires (i + 1) * w <= |ids| && at == i * w
    ensures at + w <= |ids| && WithId(ids, w, i, id) == Spliced(ids, at, Encode(id, w))
  {
    NextRow(i, w);
  }

  lemma FittingId(w: nat, id: u32)
    requires 1 <= w <= 4 && IdFits(w, id)
    ensures Decode(Encode(id, w)) == id
  {
    Pow256Values();
    DecodeEncode(id, w);
  }

  lemma OwnIdReads(ids: seq<byte>, w: nat, i: nat, id: u32)
    requires 1 <= w <= 4 && IdFits(w, id) && (i + 1) * w <= |ids|
    ensures WordAt(WithId(ids, w, i, id), w, i) == id
  {
    WithIdSplices(ids, w, i, id, i * w);
    WordAtSlice(WithId(ids, w, i, id), w, i);
    SplicedOver(ids, i * w, Encode(id, w));
    FittingId(w, id);
  }

  /** Where the written entry and another one are. */
  lemma PlacesOf(ids: seq<byte>, w: nat, i: nat, id: u32, k: nat) returns (at: nat, lo: nat)
    requires i != k && (i + 1) * w <= |ids| && (k + 1) * w <= |ids|
    ensures at + w <= |ids| && lo + w <= |ids| && (lo + w <= at || at + w <= lo)
    ensures WithId(ids, w, i, id) == Spliced(ids, at, Encode(id, w))
    ensures WordAt(ids, w, k) == Decode(ids[lo..lo + w])
    ensures WordAt(WithId(ids, w, i, id), w, k) == Decode(WithId(ids, w, i, id)[lo..lo + w])
  {
    at := PlaceOf(ids, w, i);
    lo := PlaceOf(ids, w, k);
    ApartPlaces(i, k, w, at, lo);
    WithIdSplices(ids, w, i, id, at);
    WordAtPlace(ids, w, k, lo);
    WordAtPlace(WithId(ids, w, i, id), w, k, lo);
  }

  lemma PlaceOf(ids: seq<byte>, w: nat, i: nat) returns (at: nat)
    requires (i + 1) * w <= |ids|
    ensures at == i * w && at + w <= |ids|
  {
    at := i * w;
    NextRow(i, w);
  }

  lemma ApartPlaces(i: nat, k: nat, w: nat, at: nat, lo: nat)
    requires i != k && at == i * w && lo == k * w
    ensures lo + w <= at || at + w <= lo
  {
    ApartRows(i, k, w);
  }

  lemma WordAtPlace(b: seq<byte>, w: nat, i: nat, at: nat)
    requires (i + 1) * w <= |b| && at == i * w && at + w <= |b|
    ensures WordAt(b, w, i) == Decode(b[at..at + w])
  {
    WordAtSlice(b, w, i);
  }

  lemma OtherIdReads(ids: seq<byte>, w: nat, i: nat, id: u32, k: nat)
    requires i != k && (i + 1) * w <= |ids| && (k + 1) * w <= |ids|
    ensures WordAt(WithId(ids, w, i, id), w, k) == WordAt(ids, w, k)
  {
    var at, lo := PlacesOf(ids, w, i, id, k);
    DecodedBeside(ids, at, Encode(id, w), lo, w);
  }

  lemma DecodedBeside(ids: seq<byte>, at: nat, b: seq<byte>, lo: nat, w: nat)
    requires at + |b| <= |ids| && lo + w <= |ids| && (lo + w <= at || at + |b| <= lo)
    ensures |Spliced(ids, at, b)| == |ids| && Decode(Spliced(ids, at, b)[lo..lo + w]) == Decode(ids[lo..lo + w])
  {
    SplicedBeside(ids, at, b, lo, w);
  }

  /** A write is read back, and no other entry changes. */
  lemma WithIdReads(ids: seq<byte>, w: nat, i: nat, id: u32, k: nat)
    requires 1 <= w <= 4 && IdFits(w, id)
    requires (i + 1) * w <= |ids| && (k + 1) * w <= |ids|
    ensures WordAt(WithId(ids, w, i, id), w, k) == if k == i then id else WordAt(ids, w, k)
  {
    if k == i {
      OwnIdReads(ids, w, i, id);
    } else {
      OtherIdReads(ids, w, i, id, k);
    }
  }

  lemma WordAtSlice(b: seq<byte>, w: nat, i: nat)
    requires (i + 1) * w <= |b|
    ensures i * w + w <= |b| && WordAt(b, w, i) == Decode(b[i * w..i * w + w])
  {
    NextRow(i, w);
  }

  lemma ApartRows(i: nat, k: nat, w: nat)
    requires i != k
    ensures k * w + w <= i * w || i * w + w <= k * w
  {
    NextRow(i, w);
    NextRow(k, w);
    if k < i {
      MulMono(k + 1, i, w);
    } else {
      MulMono(i + 1, k, w);
    }
  }

  lemma SplicedOver(ids: seq<byte>, at: nat, b: seq<byte>)
    requires at + |b| <= |ids|
    ensures Spliced(ids, at, b)[at..at + |b|] == b
  {
  }

  lemma SplicedBeside(ids: seq<byte>, at: nat, b: seq<byte>, lo: nat, w: nat)
    requires at + |b| <= |ids| && lo + w <= |ids| && (lo + w <= at || at + |b| <= lo)
    ensures |Spliced(ids, at, b)| == |ids| && Spliced(ids, at, b)[lo..lo + w] == ids[lo..lo + w]
  {
    var r := Spliced(ids, at, b);
    var x, y := r[lo..lo + w], ids[lo..lo + w];
    forall k | 0 <= k < w ensures x[k] == y[k] {
      assert r[lo + k] == ids[lo + k];
    }
  }

  datatype Put = Put(at: nat, id: u32)

  ghost predicate PutsFit(w: nat, len: nat, puts: seq<Put>) {
    1 <= w <= 4 && forall p :: p in puts ==> (p.at + 1) * w <= len && IdFits(w, p.id)
  }

  function AfterPuts(ids: seq<byte>, w: nat, puts: seq<Put>): (r: seq<byte>)
    requires PutsFit(w, |ids|, puts)
    ensures |r| == |ids|
  {
    if puts == [] then ids
    else
      var p := puts[|puts| - 1];
      WithId(AfterPuts(ids, w, puts[..|puts| - 1]), w, p.at, p.id)
  }

  /** The last id put at `k`, or `before` when none was. */
  function LastPut(puts: seq<Put>, k: nat, before: nat): nat {
    if puts == [] then before
    else if puts[|puts| - 1].at == k then puts[|puts| - 1].id
    else LastPut(puts[..|puts| - 1], k, before)
  }

  /** Over any run of writes, every entry holds the last id put there, or its first bytes if none was. */
  lemma {:induction false} AfterPutsReads(ids: seq<byte>, w: nat, puts: seq<Put>, k: nat)
    requires PutsFit(w, |ids|, puts) && (k + 1) * w <= |ids|
    ensures WordAt(AfterPuts(ids, w, puts), w, k) == LastPut(puts, k, WordAt(ids, w, k))
  {
    if puts != [] {
      var init := puts[..|puts| - 1];
      AfterPutsReads(ids, w, init, k);
      var p := puts[|puts| - 1];
      WithIdReads(AfterPuts(ids, w, init), w, p.at, p.id, k);
    }
  }
}
