/** Little-endian numbers and fixed-width rows of bytes: the only encodings the artifact uses. */
module LittleEndian {
  import opened Words

  function Pow256(w: nat): (p: nat)
    ensures p >= 1
  {
    if w == 0 then 1 else 256 * Pow256(w - 1)
  }

  lemma Pow256Values()
    ensures Pow256(1) == 0x100 && Pow256(2) == 0x1_0000 && Pow256(3) == 0x100_0000
    ensures Pow256(4) == 0x1_0000_0000 && Pow256(8) == 0x1_0000_0000_0000_0000
  {
    assert Pow256(2) == 256 * Pow256(1);
    assert Pow256(4) == 256 * Pow256(3);
    assert Pow256(6) == 256 * Pow256(5);
    assert Pow256(8) == 256 * Pow256(7);
  }

  /** The low `w` bytes of `x`, least significant first; higher bytes are cut off, as a Go conversion does. */
  function Encode(x: nat, w: nat): (b: seq<byte>)
    ensures |b| == w
  {
    if w == 0 then [] else [x % 256] + Encode(x / 256, w - 1)
  }

  function Decode(b: seq<byte>): (x: nat)
    ensures x < Pow256(|b|)
  {
    if b == [] then 0 else b[0] + 256 * Decode(b[1..])
  }

  lemma {:induction false} DecodeEncode(x: nat, w: nat)
    requires x < Pow256(w)
    ensures Decode(Encode(x, w)) == x
  {
    if w > 0 {
      DecodeEncode(x / 256, w - 1);
      assert Encode(x, w)[1..] == Encode(x / 256, w - 1);
    }
  }

  lemma Digit(d: byte, x: nat)
    ensures (d + 256 * x) % 256 == d && (d + 256 * x) / 256 == x
  {
  }

  lemma {:induction false} EncodeDecode(b: seq<byte>)
    ensures Encode(Decode(b), |b|) == b
  {
    if b != [] {
      EncodeDecode(b[1..]);
      Digit(b[0], Decode(b[1..]));
      assert b == [b[0]] + b[1..];
    }
  }

  lemma {:induction false} EncodeByte(x: nat, w: nat, k: nat)
    requires k < w
    ensures Encode(x, w)[k] == x / Pow256(k) % 256
  {
    if k > 0 {
      EncodeByte(x / 256, w - 1, k - 1);
      DivDiv(x, Pow256(k - 1));
    }
  }

  lemma DivDiv(x: nat, p: nat)
    requires p >= 1
    ensures x / 256 / p == x / (256 * p)
    ensures x / p / 256 == x / (256 * p)
  {
    DivByProduct(x, 256, p);
    DivByProduct(x, p, 256);
  }

  lemma DivByProduct(x: nat, v: nat, w: nat)
    requires v >= 1 && w >= 1
    ensures x / v / w == x / (v * w)
  {
    var a := x / v;
    var q, r := a / w, a % w;
    assert x == v * a + x % v;
    assert a == w * q + r;
    assert v * (w * q + r) == (v * w) * q + v * r;
    assert v * r + x % v < v * w by {
      MulMono(r + 1, w, v);
      assert v * (r + 1) == v * r + v;
    }
    DivUnique(x, v * w, q, v * r + x % v);
  }

  lemma DivUnique(x: nat, p: nat, q: nat, r: nat)
    requires r < p && x == p * q + r
    ensures x / p == q
  {
    assert x == p * (x / p) + x % p;
    if q < x / p {
      MulMono(q + 1, x / p, p);
    } else if x / p < q {
      MulMono(x / p + 1, q, p);
    }
  }

  lemma MulMono(a: nat, b: nat, w: nat)
    requires a <= b
    ensures a * w <= b * w
  {
  }

  /** Row `i` of a byte string cut into rows of `w` bytes. */
  function Slot(b: seq<byte>, w: nat, i: nat): (s: seq<byte>)
    requires (i + 1) * w <= |b|
    ensures |s| == w
  {
    assert i * w + w == (i + 1) * w;
    b[i * w..(i + 1) * w]
  }

  ghost predicate Uniform(rows: seq<seq<byte>>, w: nat) {
    forall i :: 0 <= i < |rows| ==> |rows[i]| == w
  }

  function Concat(rows: seq<seq<byte>>): (b: seq<byte>) {
    if rows == [] then [] else Concat(rows[..|rows| - 1]) + rows[|rows| - 1]
  }

  lemma {:induction false} ConcatLength(rows: seq<seq<byte>>, w: nat)
    requires Uniform(rows, w)
    ensures |Concat(rows)| == |rows| * w
  {
    if rows != [] {
      ConcatLength(rows[..|rows| - 1], w);
      assert (|rows| - 1) * w + w == |rows| * w;
    }
  }

  lemma ConcatPush(rows: seq<seq<byte>>, r: seq<byte>)
    ensures Concat(rows + [r]) == Concat(rows) + r
  {
    assert (rows + [r])[..|rows|] == rows;
  }

  lemma ConcatTake(rows: seq<seq<byte>>, i: nat)
    requires i < |rows|
    ensures Concat(rows[..i + 1]) == Concat(rows[..i]) + rows[i]
  {
    assert rows[..i + 1][..i] == rows[..i];
  }

  /** Reading a row back returns what was written there. */
  lemma {:induction false} ConcatSlot(rows: seq<seq<byte>>, w: nat, i: nat)
    requires Uniform(rows, w) && i < |rows|
    ensures |Concat(rows)| == |rows| * w && (i + 1) * w <= |rows| * w
    ensures Slot(Concat(rows), w, i) == rows[i]
  {
    ConcatLength(rows, w);
    MulMono(i + 1, |rows|, w);
    var n: nat := |rows| - 1;
    ConcatLength(rows[..n], w);
    if i < n {
      ConcatSlot(rows[..n], w, i);
      EarlierSlot(Concat(rows[..n]), rows[n], w, i);
    } else {
      LastSlot(Concat(rows[..n]), rows[n], w, n);
    }
  }

  lemma EarlierSlot(b: seq<byte>, r: seq<byte>, w: nat, i: nat)
    requires (i + 1) * w <= |b|
    ensures Slot(b + r, w, i) == Slot(b, w, i)
  {
    NextRow(i, w);
  }

  lemma LastSlot(b: seq<byte>, r: seq<byte>, w: nat, n: nat)
    requires |b| == n * w && |r| == w
    ensures (n + 1) * w <= |b + r| && Slot(b + r, w, n) == r
  {
    NextRow(n, w);
  }

  lemma SlotOfPrefix(b: seq<byte>, w: nat, n: nat, i: nat)
    requires i < n && n * w <= |b|
    ensures (i + 1) * w <= n * w
    ensures Slot(b[..n * w], w, i) == Slot(b, w, i)
  {
    MulMono(i + 1, n, w);
    NextRow(i, w);
    SliceOfPrefix(b, n * w, i * w, (i + 1) * w);
  }

  lemma NextRow(i: nat, w: nat)
    ensures i * w + w == (i + 1) * w
  {
  }

  lemma SliceOfPrefix(b: seq<byte>, end: nat, lo: nat, hi: nat)
    requires lo <= hi <= end <= |b|
    ensures b[..end][lo..hi] == b[lo..hi]
  {
  }

  ghost predicate SlotIs(b: seq<byte>, w: nat, i: nat, r: seq<byte>) {
    (i + 1) * w <= |b| && Slot(b, w, i) == r
  }

  /** A byte string is determined by its rows. */
  lemma {:induction false} SlotsDetermine(b: seq<byte>, rows: seq<seq<byte>>, w: nat)
    requires |b| == |rows| * w
    requires forall i: nat :: i < |rows| ==> SlotIs(b, w, i, rows[i])
    ensures b == Concat(rows)
  {
    if rows != [] {
      var n: nat := |rows| - 1;
      NextRow(n, w);
      var init := b[..n * w];
      forall i: nat | i < n
        ensures SlotIs(init, w, i, rows[..n][i])
      {
        SlotOfPrefix(b, w, n, i);
        assert SlotIs(b, w, i, rows[i]);
      }
      SlotsDetermine(init, rows[..n], w);
      assert SlotIs(b, w, n, rows[n]);
      assert b == init + Slot(b, w, n);
    }
  }

  function EncodeAll(w: nat, xs: seq<nat>): (rows: seq<seq<byte>>)
    ensures |rows| == |xs| && Uniform(rows, w)
    ensures forall i :: 0 <= i < |xs| ==> rows[i] == Encode(xs[i], w)
  {
    seq(|xs|, i requires 0 <= i < |xs| => Encode(xs[i], w))
  }

  /** The numbers `xs` as consecutive `w`-byte little-endian words. */
  function Pack(w: nat, xs: seq<nat>): (b: seq<byte>)
    ensures |b| == |xs| * w
  {
    ConcatLength(EncodeAll(w, xs), w);
    Concat(EncodeAll(w, xs))
  }

  /** Word `i` of a byte string read as `w`-byte little-endian words. */
  function WordAt(b: seq<byte>, w: nat, i: nat): (x: nat)
    requires (i + 1) * w <= |b|
    ensures x < Pow256(w)
  {
    Decode(Slot(b, w, i))
  }

  lemma SlotFits(n: nat, w: nat, i: nat)
    requires w > 0 && i < n / w
    ensures (i + 1) * w <= n
  {
    MulMono(i + 1, n / w, w);
    assert n == w * (n / w) + n % w;
  }

  function NthWord(b: seq<byte>, w: nat, i: nat): (x: nat)
    requires w > 0 && i < |b| / w
    ensures (i + 1) * w <= |b| && x == WordAt(b, w, i)
  {
    SlotFits(|b|, w, i);
    WordAt(b, w, i)
  }

  /** A byte string read as consecutive `w`-byte little-endian words. */
  function Unpack(w: nat, b: seq<byte>): (xs: seq<nat>)
    requires w > 0
    ensures |xs| == |b| / w
    ensures forall i: nat :: i < |xs| ==> xs[i] == NthWord(b, w, i)
  {
    seq(|b| / w, i requires 0 <= i < |b| / w => NthWord(b, w, i))
  }

  lemma PackWord(w: nat, xs: seq<nat>, i: nat)
    requires i < |xs| && xs[i] < Pow256(w)
    ensures (i + 1) * w <= |xs| * w
    ensures WordAt(Pack(w, xs), w, i) == xs[i]
  {
    ConcatSlot(EncodeAll(w, xs), w, i);
    DecodeEncode(xs[i], w);
  }

  lemma DivExact(n: nat, w: nat)
    requires w > 0
    ensures (n * w) / w == n && (n * w) % w == 0
  {
    DivUnique(n * w, w, n, 0);
    assert n * w == w * ((n * w) / w) + (n * w) % w;
  }

  lemma UnpackPack(w: nat, xs: seq<nat>)
    requires w > 0
    requires forall i :: 0 <= i < |xs| ==> xs[i] < Pow256(w)
    ensures Unpack(w, Pack(w, xs)) == xs
  {
    var b := Pack(w, xs);
    DivExact(|xs|, w);
    forall i: nat | i < |xs|
      ensures Unpack(w, b)[i] == xs[i]
    {
      PackWord(w, xs, i);
      assert Unpack(w, b)[i] == NthWord(b, w, i);
    }
  }

  lemma PackUnpack(w: nat, b: seq<byte>)
    requires w > 0 && |b| % w == 0
    ensures Pack(w, Unpack(w, b)) == b
  {
    var xs := Unpack(w, b);
    var rows := EncodeAll(w, xs);
    assert |b| == w * (|b| / w) + |b| % w;
    assert |b| == |rows| * w;
    forall i: nat | i < |rows|
      ensures SlotIs(b, w, i, rows[i])
    {
      SlotFits(|b|, w, i);
      EncodeDecode(Slot(b, w, i));
    }
    SlotsDetermine(b, rows, w);
  }

  ghost predicate SameWordAt(b: seq<byte>, c: seq<byte>, w: nat, i: nat) {
    (i + 1) * w <= |b| && (i + 1) * w <= |c| && WordAt(b, w, i) == WordAt(c, w, i)
  }

  /** Equal words are equal bytes. */
  lemma SameWords(b: seq<byte>, c: seq<byte>, w: nat, n: nat)
    requires w > 0 && |b| == n * w && |c| == n * w
    requires forall i: nat :: i < n ==> SameWordAt(b, c, w, i)
    ensures b == c
  {
    DivExact(n, w);
    var xs, ys := Unpack(w, b), Unpack(w, c);
    forall i: nat | i < n ensures xs[i] == ys[i] {
      assert SameWordAt(b, c, w, i);
      assert xs[i] == NthWord(b, w, i) && ys[i] == NthWord(c, w, i);
    }
    assert xs == ys;
    PackUnpack(w, b);
    PackUnpack(w, c);
  }

  lemma ZeroWord()
    ensures Encode(0, 4) == [0, 0, 0, 0]
  {
    assert Encode(0, 2) == [0] + Encode(0, 1);
    assert Encode(0, 4) == [0] + Encode(0, 3);
  }
}
