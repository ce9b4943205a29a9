/** pkg/bits/bits.go: a 64-bit word cut into declared fields, and why no field reads or writes another's bits. */
module Bits {
  import opened Words
  import LittleEndian

  /** A 64-bit word, lowest bit first. */
  type Word = w: seq<bool> | |w| == 64 witness seq(64, _ => false)

  // ---- the machine's operations on words ----

  function Ones(): (r: Word)
    ensures forall i :: 0 <= i < 64 ==> r[i]
  {
    seq(64, _ => true)
  }

  function Zeros(): (r: Word)
    ensures forall i :: 0 <= i < 64 ==> !r[i]
  {
    seq(64, _ => false)
  }

  function And(a: Word, b: Word): (r: Word)
    ensures forall i :: 0 <= i < 64 ==> r[i] == (a[i] && b[i])
  {
    seq(64, i requires 0 <= i < 64 => a[i] && b[i])
  }

  function AndNot(a: Word, b: Word): (r: Word)
    ensures forall i :: 0 <= i < 64 ==> r[i] == (a[i] && !b[i])
  {
    seq(64, i requires 0 <= i < 64 => a[i] && !b[i])
  }

  function Or(a: Word, b: Word): (r: Word)
    ensures forall i :: 0 <= i < 64 ==> r[i] == (a[i] || b[i])
  {
    seq(64, i requires 0 <= i < 64 => a[i] || b[i])
  }

  /** A shift of 64 or more leaves nothing, as in Go. */
  function ShiftLeft(a: Word, n: u64): (r: Word)
    ensures forall i :: 0 <= i < 64 ==> r[i] == (i >= n && a[i - n])
  {
    seq(64, i requires 0 <= i < 64 => i >= n && a[i - n])
  }

  function ShiftRight(a: Word, n: u64): (r: Word)
    ensures forall i :: 0 <= i < 64 ==> r[i] == (i + n < 64 && a[i + n])
  {
    seq(64, i requires 0 <= i < 64 => i + n < 64 && a[i + n])
  }

  /** A 64-bit sum and difference of unsigned integers. */
  function Plus(a: u64, b: u64): u64 { (a + b) % 0x1_0000_0000_0000_0000 }

  function Minus(a: u64, b: u64): u64 { (a - b) % 0x1_0000_0000_0000_0000 }

  // ---- fields ----

  datatype Field = Span(shift: u64, width: u64) {
    function Mask(): Word {
      ShiftRight(Ones(), Minus(64, width))
    }

    function Get(w: Word): Word {
      And(ShiftRight(w, shift), Mask())
    }

    function Put(w: Word, v: Word): Word {
      Or(AndNot(w, ShiftLeft(Mask(), shift)), ShiftLeft(And(v, Mask()), shift))
    }

    function Max(): Word {
      Mask()
    }

    /** The field lies within the word. */
    predicate InWord() {
      1 <= width && shift + width <= 64
    }

    predicate Owns(i: nat) {
      shift <= i < shift + width
    }

    /** The mask is the low `width` bits, for every width a layout can grant. */
    lemma MaskBits(i: nat)
      requires InWord() && i < 64
      ensures Mask()[i] <==> i < width
    {
    }

    /** Get reads the field's own bits, lowest first, and nothing above them. */
    lemma GetBits(w: Word, i: nat)
      requires InWord() && i < 64
      ensures Get(w)[i] <==> i < width && w[shift + i]
    {
      MaskBits(i);
    }

    /** Put replaces exactly the field's own bits. */
    lemma PutBits(w: Word, v: Word, i: nat)
      requires InWord() && i < 64
      ensures Put(w, v)[i] == if Owns(i) then v[i - shift] else w[i]
    {
      if i >= shift {
        MaskBits(i - shift);
      }
    }

    /** A value is read back cut to the field's width. */
    lemma GetOwnPut(w: Word, v: Word)
      requires InWord()
      ensures Get(Put(w, v)) == And(v, Mask())
    {
      forall i: nat | i < 64 ensures Get(Put(w, v))[i] == And(v, Mask())[i] {
        GetBits(Put(w, v), i);
        MaskBits(i);
        if i < width {
          PutBits(w, v, shift + i);
        }
      }
    }

    /** A field with no bit in common does not see the Put. */
    lemma GetOtherPut(g: Field, w: Word, v: Word)
      requires InWord() && g.InWord() && Apart(this, g)
      ensures Get(g.Put(w, v)) == Get(w)
    {
      forall i: nat | i < 64 ensures Get(g.Put(w, v))[i] == Get(w)[i] {
        GetOtherBit(g, w, v, i);
      }
    }

    lemma GetOtherBit(g: Field, w: Word, v: Word, i: nat)
      requires InWord() && g.InWord() && Apart(this, g) && i < 64
      ensures Get(g.Put(w, v))[i] == Get(w)[i]
    {
      GetBits(g.Put(w, v), i);
      GetBits(w, i);
      if i < width {
        g.PutBits(w, v, shift + i);
      }
    }

    /** A field wider than a word, as only a wrapped sum grants, shows nothing and changes nothing. */
    lemma TooWideIsInert(w: Word, v: Word)
      requires width > 64
      ensures Mask() == Zeros() && Get(w) == Zeros() && Put(w, v) == w
    {
      assert Minus(64, width) > 64;
      assert Mask() == Zeros();
      assert ShiftLeft(Zeros(), shift) == Zeros();
      assert And(v, Zeros()) == Zeros() && And(ShiftRight(w, shift), Zeros()) == Zeros();
      assert Or(AndNot(w, Zeros()), Zeros()) == w;
    }

    /** Fields that share a bit are not independent: a Put through one shows in the other. */
    lemma SharedBitShows(g: Field)
      requires InWord() && g.InWord() && !Apart(this, g)
      ensures Get(g.Put(Zeros(), Ones())) != Get(Zeros())
    {
      var i := if shift < g.shift then g.shift else shift;
      g.PutBits(Zeros(), Ones(), i);
      GetBits(g.Put(Zeros(), Ones()), i - shift);
      GetBits(Zeros(), i - shift);
    }

    /** As numbers: Get is the word divided by two to the shift, modulo two to the width. */
    lemma GetIsDivMod(w: Word)
      requires InWord()
      ensures Number(Get(w)) == Number(w) / Pow2(shift) % Pow2(width)
    {
      forall i: nat | i < 64 ensures Get(w)[i] <==> i < width && w[shift..][i] {
        GetBits(w, i);
      }
      NumberSplit(w, shift);
      NumberCut(w[shift..], Get(w), width);
    }

    /** As numbers: what is put is read back modulo two to the width. */
    lemma PutIsMod(w: Word, v: Word)
      requires InWord()
      ensures Number(Get(Put(w, v))) == Number(v) % Pow2(width)
    {
      GetOwnPut(w, v);
      forall i: nat | i < 64 ensures And(v, Mask())[i] <==> i < width && v[i] {
        MaskBits(i);
      }
      NumberCut(v, And(v, Mask()), width);
    }

    lemma MaxNumber()
      requires InWord()
      ensures Number(Max()) == Pow2(width) - 1
    {
      forall i: nat | i < 64 ensures Max()[i] <==> i < width {
        MaskBits(i);
      }
      LowOnesNumber(Max(), width);
    }

    /** Max is exactly the largest value that is put and read back unchanged. */
    lemma MaxIsLargest(w: Word, v: Word)
      requires InWord()
      ensures Get(Put(w, v)) == v <==> Number(v) <= Number(Max())
    {
      MaxNumber();
      PutIsMod(w, v);
      RemainderSame(Number(v), Pow2(width));
      if Number(Get(Put(w, v))) == Number(v) {
        NumberInjective(Get(Put(w, v)), v);
      }
    }
  }

  ghost predicate Apart(f: Field, g: Field) {
    f.shift + f.width <= g.shift || g.shift + g.width <= f.shift
  }

  // ---- words as numbers ----

  function Pow2(n: nat): (p: nat)
    ensures p >= 1
  {
    if n == 0 then 1 else 2 * Pow2(n - 1)
  }

  function Number(b: seq<bool>): (x: nat)
    ensures x < Pow2(|b|)
  {
    if b == [] then 0 else (if b[0] then 1 else 0) + 2 * Number(b[1..])
  }

  lemma {:induction false} NumberConcat(a: seq<bool>, b: seq<bool>)
    ensures Number(a + b) == Number(a) + Pow2(|a|) * Number(b)
  {
    if a == [] {
      assert a + b == b;
    } else {
      assert (a + b)[1..] == a[1..] + b;
      NumberConcat(a[1..], b);
      Doubled(if a[0] then 1 else 0, Number(a[1..]), Pow2(|a| - 1), Number(b), Number(a[1..] + b));
    }
  }

  lemma Doubled(low: nat, a: nat, p: nat, b: nat, x: nat)
    requires x == a + p * b
    ensures low + 2 * x == (low + 2 * a) + (2 * p) * b
  {
  }

  lemma RemainderSame(x: nat, p: nat)
    requires p > 0
    ensures x % p == x <==> x <= p - 1
  {
  }

  lemma NumberSplit(b: seq<bool>, n: nat)
    requires n <= |b|
    ensures Number(b[..n]) == Number(b) % Pow2(n) && Number(b[n..]) == Number(b) / Pow2(n)
  {
    assert b == b[..n] + b[n..];
    NumberConcat(b[..n], b[n..]);
    DivModUnique(Number(b), Pow2(n), Number(b[n..]), Number(b[..n]));
  }

  lemma DivModUnique(x: nat, p: nat, q: nat, r: nat)
    requires r < p && x == r + p * q
    ensures x / p == q && x % p == r
  {
    LittleEndian.DivUnique(x, p, q, r);
  }

  lemma {:induction false} ZerosNumber(b: seq<bool>)
    requires forall i :: 0 <= i < |b| ==> !b[i]
    ensures Number(b) == 0
  {
    if b != [] {
      ZerosNumber(b[1..]);
    }
  }

  lemma {:induction false} OnesNumber(b: seq<bool>)
    requires forall i :: 0 <= i < |b| ==> b[i]
    ensures Number(b) == Pow2(|b|) - 1
  {
    if b != [] {
      OnesNumber(b[1..]);
    }
  }

  lemma LowOnesNumber(b: seq<bool>, n: nat)
    requires n <= |b| && forall i: nat :: i < |b| ==> (b[i] <==> i < n)
    ensures Number(b) == Pow2(n) - 1
  {
    assert b == b[..n] + b[n..];
    OnesNumber(b[..n]);
    ZeroTail(b[..n], b[n..]);
  }

  /** Keeping only the low `n` bits is taking the number modulo two to the `n`. */
  lemma NumberCut(b: seq<bool>, cut: seq<bool>, n: nat)
    requires n <= |b| <= |cut|
    requires forall i: nat :: i < |cut| ==> (cut[i] <==> i < n && b[i])
    ensures Number(cut) == Number(b) % Pow2(n)
  {
    NumberSplit(b, n);
    ExtendedNumber(b[..n], cut);
  }

  lemma ExtendedNumber(low: seq<bool>, cut: seq<bool>)
    requires |low| <= |cut| && forall i: nat :: i < |cut| ==> (cut[i] <==> i < |low| && low[i])
    ensures Number(cut) == Number(low)
  {
    var n := |low|;
    assert cut[..n] == low && cut == low + cut[n..];
    ZeroTail(low, cut[n..]);
  }

  lemma ZeroTail(a: seq<bool>, z: seq<bool>)
    requires forall i :: 0 <= i < |z| ==> !z[i]
    ensures Number(a + z) == Number(a)
  {
    ZerosNumber(z);
    NumberConcat(a, z);
  }

  lemma {:induction false} NumberInjective(a: seq<bool>, b: seq<bool>)
    requires |a| == |b| && Number(a) == Number(b)
    ensures a == b
  {
    if a != [] {
      assert a[0] == b[0];
      NumberInjective(a[1..], b[1..]);
      assert a == [a[0]] + a[1..] && b == [b[0]] + b[1..];
    }
  }

  // ---- declaring a layout ----

  datatype Decl = AField(width: u64) | AReserve(width: u64)

  /** A layout so far: the bits used and the fields granted, or a panic at some declaration. */
  datatype Declared = Declared(used: u64, fields: seq<Field>) | Panicked

  function Step(s: Declared, d: Decl): Declared {
    if s.Panicked? then Panicked
    else if d.AField? && d.width == 0 then Panicked
    else if Plus(s.used, d.width) > 64 then Panicked
    else Declared(Plus(s.used, d.width), if d.AField? then s.fields + [Span(s.used, d.width)] else s.fields)
  }

  function Run(ds: seq<Decl>): Declared {
    if ds == [] then Declared(0, []) else Step(Run(ds[..|ds| - 1]), ds[|ds| - 1])
  }

  class Layout {
    var used: u64
    ghost var fields: seq<Field>

    constructor ()
      ensures State() == Run([])
    {
      used, fields := 0, [];
    }

    ghost function State(): Declared
      reads this
    {
      Declared(used, fields)
    }

    /** Allocates the next `width` bits; None is the panic, after which nothing has changed. */
    method Field(width: u64) returns (f: Option<Field>)
      modifies this
      ensures f.None? <==> width == 0 || (old(used) + width) % 0x1_0000_0000_0000_0000 > 64
      ensures f.Some? ==> f.value == Span(old(used), width) && used == (old(used) + width) % 0x1_0000_0000_0000_0000
      ensures f.None? <==> Step(old(State()), AField(width)) == Panicked
      ensures f.Some? ==> State() == Step(old(State()), AField(width)) && fields == old(fields) + [f.value]
      ensures f.None? ==> State() == old(State())
    {
      if width == 0 {
        return None;
      }
      if Plus(used, width) > 64 {
        return None;
      }
      var g := Span(used, width);
      used := Plus(used, width);
      fields := fields + [g];
      f := Some(g);
    }

    method Reserve(width: u64) returns (r: Option<u64>)
      modifies this
      ensures r.None? <==> (old(used) + width) % 0x1_0000_0000_0000_0000 > 64
      ensures r.Some? ==> used == (old(used) + width) % 0x1_0000_0000_0000_0000
      ensures r.None? <==> Step(old(State()), AReserve(width)) == Panicked
      ensures r.Some? ==> r.value == width && State() == Step(old(State()), AReserve(width))
      ensures r.None? ==> State() == old(State())
    {
      if Plus(used, width) > 64 {
        return None;
      }
      used := Plus(used, width);
      r := Some(width);
    }
  }

  // ---- what a layout promises ----

  /** Fields in order, each above the one before it, and all below `used`. */
  ghost predicate Stacked(used: u64, fields: seq<Field>) {
    && used <= 64
    && (forall k :: 0 <= k < |fields| ==> fields[k].InWord() && fields[k].shift + fields[k].width <= used)
    && forall j, k :: 0 <= j < k < |fields| ==> fields[j].shift + fields[j].width <= fields[k].shift
  }

  /** No 64-bit sum taken on the way wraps. */
  predicate NoSumWraps(ds: seq<Decl>) {
    ds == [] ||
    var init, d := ds[..|ds| - 1], ds[|ds| - 1];
    && NoSumWraps(init)
    && (Run(init).Declared? ==> Run(init).used + d.width < 0x1_0000_0000_0000_0000)
  }

  lemma StackedStep(s: Declared, d: Decl)
    requires s.Declared? && Stacked(s.used, s.fields) && Step(s, d).Declared?
    requires s.used + d.width < 0x1_0000_0000_0000_0000
    ensures Stacked(Step(s, d).used, Step(s, d).fields) && Step(s, d).used == s.used + d.width
  {
  }

  /** Unless a sum wraps, a layout's fields are disjoint and within the word. */
  lemma {:induction false} LayoutIsStacked(ds: seq<Decl>)
    requires NoSumWraps(ds) && Run(ds).Declared?
    ensures Stacked(Run(ds).used, Run(ds).fields) && Run(ds).used == TotalWidth(ds)
  {
    if ds != [] {
      LayoutIsStacked(ds[..|ds| - 1]);
      StackedStep(Run(ds[..|ds| - 1]), ds[|ds| - 1]);
    }
  }

  function TotalWidth(ds: seq<Decl>): nat {
    if ds == [] then 0 else TotalWidth(ds[..|ds| - 1]) + ds[|ds| - 1].width
  }

  lemma {:induction false} UsedWithinWord(ds: seq<Decl>)
    requires Run(ds).Declared?
    ensures Run(ds).used <= 64
  {
  }

  /** A total that fits 64 bits never wraps on the way. */
  lemma {:induction false} SmallTotalsDoNotWrap(ds: seq<Decl>)
    requires TotalWidth(ds) < 0x1_0000_0000_0000_0000
    ensures NoSumWraps(ds)
  {
    if ds != [] {
      var init := ds[..|ds| - 1];
      SmallTotalsDoNotWrap(init);
      if Run(init).Declared? {
        LayoutIsStacked(init);
      }
    }
  }

  /** Nor do widths up to a word, however many are declared. */
  lemma {:induction false} WordWidthsDoNotWrap(ds: seq<Decl>)
    requires forall d :: d in ds ==> d.width <= 64
    ensures NoSumWraps(ds)
  {
    if ds != [] {
      var init := ds[..|ds| - 1];
      WordWidthsDoNotWrap(init);
      assert ds[|ds| - 1] in ds;
      if Run(init).Declared? {
        UsedWithinWord(init);
      }
    }
  }

  /** A sum that wrapped leaves more declared than a word holds. */
  lemma {:induction false} WrapExceedsWord(ds: seq<Decl>)
    requires Run(ds).Declared? && !NoSumWraps(ds)
    ensures TotalWidth(ds) > 64
  {
    var init := ds[..|ds| - 1];
    if NoSumWraps(init) {
      UsedWithinWord(init);
    } else {
      WrapExceedsWord(init);
    }
  }

  /** `used` counts the bits declared exactly when no sum wrapped. */
  lemma UsedIsTotalExactly(ds: seq<Decl>)
    requires Run(ds).Declared?
    ensures Run(ds).used == TotalWidth(ds) <==> NoSumWraps(ds)
  {
    UsedWithinWord(ds);
    if NoSumWraps(ds) {
      LayoutIsStacked(ds);
    } else {
      WrapExceedsWord(ds);
    }
  }

  /** A declaration that does not fit is refused exactly when the 64-bit sum does not wrap. */
  lemma OverflowCaughtExactly(ds: seq<Decl>, d: Decl)
    requires Run(ds).Declared? && Run(ds).used + d.width > 64
    ensures Step(Run(ds), d).Panicked? <==> d.width < 0x1_0000_0000_0000_0000 - Run(ds).used
  {
    UsedWithinWord(ds);
  }

  lemma PanicsAt(s: Declared, d: Decl)
    requires s.Declared? && s.used + d.width < 0x1_0000_0000_0000_0000
    ensures Step(s, d).Panicked? <==> d == AField(0) || s.used + d.width > 64
  {
  }

  lemma InitOrLast(ds: seq<Decl>, d: Decl)
    requires ds != []
    ensures d in ds <==> d in ds[..|ds| - 1] || d == ds[|ds| - 1]
  {
    assert ds == ds[..|ds| - 1] + [ds[|ds| - 1]];
  }

  /** Unless a sum wraps, a layout panics exactly when a field is empty or the declarations do not fit the word. */
  lemma {:induction false} PanicsExactly(ds: seq<Decl>)
    requires NoSumWraps(ds)
    ensures Run(ds).Panicked? <==> AField(0) in ds || TotalWidth(ds) > 64
  {
    if ds != [] {
      var n := |ds| - 1;
      PanicsExactly(ds[..n]);
      InitOrLast(ds, AField(0));
      if Run(ds[..n]).Declared? {
        LayoutIsStacked(ds[..n]);
        PanicsAt(Run(ds[..n]), ds[n]);
      }
    }
  }

  /** So it does for every sequence of widths whose total fits 64 bits. */
  lemma PanicsForTotals(ds: seq<Decl>)
    requires TotalWidth(ds) < 0x1_0000_0000_0000_0000
    ensures Run(ds).Panicked? <==> AField(0) in ds || TotalWidth(ds) > 64
    ensures Run(ds).Declared? ==> Run(ds).used == TotalWidth(ds)
  {
    SmallTotalsDoNotWrap(ds);
    PanicsExactly(ds);
    if Run(ds).Declared? {
      LayoutIsStacked(ds);
    }
  }

  /** A granted field lies within the word exactly when the caller asked for no more than a word. */
  lemma GrantedInWordExactly(ds: seq<Decl>, width: u64)
    requires Run(ds).Declared? && Step(Run(ds), AField(width)).Declared?
    ensures var f := Step(Run(ds), AField(width)).fields[|Run(ds).fields|]; f.InWord() <==> width <= 64
  {
    UsedWithinWord(ds);
  }

  /** A width near 2^64 wraps the sum: it is granted after one used bit, far outside the word. */
  lemma HugeWidthIsGranted()
    ensures var s := Step(Declared(1, [Span(0, 1)]), AField(0xFFFF_FFFF_FFFF_FFFF));
            s.Declared? && s.used == 0 && |s.fields| == 2 && !s.fields[1].InWord()
  {
  }

  // ---- any run of Puts ----

  datatype Write = Write(k: nat, v: Word)

  function AfterPuts(fields: seq<Field>, w: Word, ps: seq<Write>): Word
    requires forall p :: p in ps ==> p.k < |fields|
  {
    if ps == [] then w
    else
      var p := ps[|ps| - 1];
      fields[p.k].Put(AfterPuts(fields, w, ps[..|ps| - 1]), p.v)
  }

  /** The last value put through field `k`, if any was. */
  function LastPut(ps: seq<Write>, k: nat): Option<Word> {
    if ps == [] then None
    else if ps[|ps| - 1].k == k then Some(ps[|ps| - 1].v)
    else LastPut(ps[..|ps| - 1], k)
  }

  /** After any run of Puts, each Get returns the last value put cut to the width, or the first bits if none was. */
  lemma {:induction false} GetAfterPuts(used: u64, fields: seq<Field>, w: Word, ps: seq<Write>, k: nat)
    requires Stacked(used, fields) && k < |fields| && forall p :: p in ps ==> p.k < |fields|
    ensures fields[k].Get(AfterPuts(fields, w, ps)) ==
            match LastPut(ps, k)
            case None => fields[k].Get(w)
            case Some(v) => And(v, fields[k].Mask())
  {
    if ps != [] {
      var n := |ps| - 1;
      var p, before := ps[n], AfterPuts(fields, w, ps[..n]);
      assert p in ps;
      if p.k == k {
        fields[k].GetOwnPut(before, p.v);
      } else {
        fields[k].GetOtherPut(fields[p.k], before, p.v);
        GetAfterPuts(used, fields, w, ps[..n], k);
      }
    }
  }

  /** Bits no field owns, reserved or unallocated, never change. */
  lemma {:induction false} UnownedBitsStay(used: u64, fields: seq<Field>, w: Word, ps: seq<Write>, i: nat)
    requires Stacked(used, fields) && (forall p :: p in ps ==> p.k < |fields|)
    requires i < 64 && forall k :: 0 <= k < |fields| ==> !fields[k].Owns(i)
    ensures AfterPuts(fields, w, ps)[i] == w[i]
  {
    if ps != [] {
      var n := |ps| - 1;
      assert ps[n] in ps;
      fields[ps[n].k].PutBits(AfterPuts(fields, w, ps[..n]), ps[n].v, i);
      UnownedBitsStay(used, fields, w, ps[..n], i);
    }
  }

  /** The whole promise: through any layout whose sums did not wrap, from any word, over any run of Puts. */
  lemma FieldsDoNotInterfere(ds: seq<Decl>, w: Word, ps: seq<Write>, k: nat)
    requires NoSumWraps(ds) && Run(ds).Declared?
    requires k < |Run(ds).fields| && forall p :: p in ps ==> p.k < |Run(ds).fields|
    ensures var f, after := Run(ds).fields[k], AfterPuts(Run(ds).fields, w, ps);
            match LastPut(ps, k)
            case None => f.Get(after) == f.Get(w)
            case Some(v) => f.InWord() && Number(f.Get(after)) == Number(v) % Pow2(f.width)
  {
    LayoutIsStacked(ds);
    var fields := Run(ds).fields;
    GetAfterPuts(Run(ds).used, fields, w, ps, k);
    match LastPut(ps, k)
    case None =>
    case Some(v) =>
      fields[k].GetOwnPut(w, v);
      fields[k].PutIsMod(w, v);
  }

  // ---- which bits a layout grants and which it keeps clear ----

  /** The number of fields among the declarations. */
  function FieldCount(ds: seq<Decl>): nat {
    if ds == [] then 0 else FieldCount(ds[..|ds| - 1]) + if ds[|ds| - 1].AField? then 1 else 0
  }

  lemma InitOfPrefix(ds: seq<Decl>, j: nat)
    requires j < |ds|
    ensures ds[..|ds| - 1][..j] == ds[..j]
  {
  }

  lemma {:induction false} FieldsCounted(ds: seq<Decl>)
    requires Run(ds).Declared?
    ensures |Run(ds).fields| == FieldCount(ds)
  {
    if ds != [] {
      FieldsCounted(ds[..|ds| - 1]);
    }
  }

  /** The field granted by declaration `j` starts where the bits declared before it end, and has the width asked for. */
  lemma {:induction false} GrantedAt(ds: seq<Decl>, j: nat)
    requires NoSumWraps(ds) && Run(ds).Declared? && j < |ds| && ds[j].AField?
    ensures FieldCount(ds[..j]) < |Run(ds).fields|
    ensures var f := Run(ds).fields[FieldCount(ds[..j])]; f.shift == TotalWidth(ds[..j]) && f.width == ds[j].width
  {
    var n := |ds| - 1;
    InitOfPrefix(ds, j);
    if j < n {
      GrantedAt(ds[..n], j);
    } else {
      FieldsCounted(ds[..n]);
      LayoutIsStacked(ds[..n]);
    }
  }

  lemma {:induction false} TotalGrows(ds: seq<Decl>, j: nat)
    requires j < |ds|
    ensures TotalWidth(ds[..j]) + ds[j].width <= TotalWidth(ds)
  {
    var n := |ds| - 1;
    InitOfPrefix(ds, j);
    if j < n {
      TotalGrows(ds[..n], j);
    }
  }

  /** No field owns a bit that declaration `j` reserved. */
  lemma {:induction false} ReservedIsUnowned(ds: seq<Decl>, j: nat, k: nat, i: nat)
    requires NoSumWraps(ds) && Run(ds).Declared? && j < |ds| && ds[j].AReserve? && k < |Run(ds).fields|
    requires TotalWidth(ds[..j]) <= i < TotalWidth(ds[..j]) + ds[j].width
    ensures !Run(ds).fields[k].Owns(i)
  {
    var n := |ds| - 1;
    var init := ds[..n];
    InitOfPrefix(ds, j);
    LayoutIsStacked(init);
    if j < n {
      TotalGrows(init, j);
      if k < |Run(init).fields| {
        ReservedIsUnowned(init, j, k, i);
      }
    } else {
      assert Run(init).fields[k].shift + Run(init).fields[k].width <= TotalWidth(init);
    }
  }

  /** So reserved bits stay as they were, over any run of Puts. */
  lemma ReservedBitsStay(ds: seq<Decl>, j: nat, i: nat, w: Word, ps: seq<Write>)
    requires NoSumWraps(ds) && Run(ds).Declared? && j < |ds| && ds[j].AReserve?
    requires TotalWidth(ds[..j]) <= i < TotalWidth(ds[..j]) + ds[j].width
    requires forall p :: p in ps ==> p.k < |Run(ds).fields|
    ensures i < 64 && AfterPuts(Run(ds).fields, w, ps)[i] == w[i]
  {
    LayoutIsStacked(ds);
    TotalGrows(ds, j);
    forall k: nat | k < |Run(ds).fields| ensures !Run(ds).fields[k].Owns(i) {
      ReservedIsUnowned(ds, j, k, i);
    }
    UnownedBitsStay(Run(ds).used, Run(ds).fields, w, ps, i);
  }

  // ---- layouts whose sums may have wrapped ----

  /** Over any run of Puts, field `k` shows the last value put through it, or the first bits if none was. */
  ghost predicate KeepsToItself(fields: seq<Field>, k: nat)
    requires k < |fields|
  {
    forall w, ps :: PutsWithin(fields, ps) ==> Shows(fields, k, w, ps)
  }

  ghost predicate PutsWithin(fields: seq<Field>, ps: seq<Write>) {
    forall p :: p in ps ==> p.k < |fields|
  }

  ghost predicate Shows(fields: seq<Field>, k: nat, w: Word, ps: seq<Write>)
    requires k < |fields| && PutsWithin(fields, ps)
  {
    fields[k].Get(AfterPuts(fields, w, ps)) ==
    match LastPut(ps, k)
    case None => fields[k].Get(w)
    case Some(v) => And(v, fields[k].Mask())
  }

  /** A granted field lies in the word unless it is wider than one. */
  lemma {:induction false} GrantedFields(ds: seq<Decl>, k: nat)
    requires Run(ds).Declared? && k < |Run(ds).fields|
    ensures Run(ds).fields[k].InWord() <==> Run(ds).fields[k].width <= 64
  {
    var n := |ds| - 1;
    if k < |Run(ds[..n]).fields| {
      GrantedFields(ds[..n], k);
    } else {
      GrantedInWordExactly(ds[..n], ds[n].width);
    }
  }

  /** The other fields share no bit with field `k` that either could show or change. */
  ghost predicate ShareNothing(fields: seq<Field>, k: nat)
    requires k < |fields|
  {
    fields[k].width > 64 ||
    forall j :: 0 <= j < |fields| && j != k ==> fields[j].width > 64 || Apart(fields[k], fields[j])
  }

  /** One Put through a layout. */
  lemma PutShows(fields: seq<Field>, k: nat, w: Word, p: Write)
    requires k < |fields| && p.k < |fields| && ShareNothing(fields, k)
    requires forall j :: 0 <= j < |fields| && fields[j].width <= 64 ==> fields[j].InWord()
    ensures fields[k].Get(fields[p.k].Put(w, p.v)) ==
            if p.k == k then And(p.v, fields[k].Mask()) else fields[k].Get(w)
  {
    var f, g := fields[k], fields[p.k];
    if f.width > 64 {
      f.TooWideIsInert(g.Put(w, p.v), p.v);
      f.TooWideIsInert(w, p.v);
      assert And(p.v, Zeros()) == Zeros();
    } else if g.width > 64 {
      g.TooWideIsInert(w, p.v);
    } else if p.k == k {
      f.GetOwnPut(w, p.v);
    } else {
      f.GetOtherPut(g, w, p.v);
    }
  }

  lemma {:induction false} PutsShow(fields: seq<Field>, k: nat, w: Word, ps: seq<Write>)
    requires k < |fields| && PutsWithin(fields, ps) && ShareNothing(fields, k)
    requires forall j :: 0 <= j < |fields| && fields[j].width <= 64 ==> fields[j].InWord()
    ensures Shows(fields, k, w, ps)
  {
    if ps != [] {
      var n := |ps| - 1;
      assert ps[n] in ps;
      PutsShow(fields, k, w, ps[..n]);
      PutShows(fields, k, AfterPuts(fields, w, ps[..n]), ps[n]);
    }
  }

  lemma OnePut(fields: seq<Field>, w: Word, p: Write)
    requires p.k < |fields|
    ensures PutsWithin(fields, [p]) && AfterPuts(fields, w, [p]) == fields[p.k].Put(w, p.v)
    ensures forall k :: k != p.k ==> LastPut([p], k) == None
  {
    assert [p][..0] == [];
  }

  /** However declared, a field is undisturbed exactly when no other field up to a word wide shares a bit with it. */
  lemma KeepsToItselfExactly(ds: seq<Decl>, k: nat)
    requires Run(ds).Declared? && k < |Run(ds).fields|
    ensures KeepsToItself(Run(ds).fields, k) <==> ShareNothing(Run(ds).fields, k)
  {
    var fields := Run(ds).fields;
    forall j: nat | j < |fields| ensures fields[j].InWord() <==> fields[j].width <= 64 {
      GrantedFields(ds, j);
    }
    if ShareNothing(fields, k) {
      forall w, ps | PutsWithin(fields, ps) ensures Shows(fields, k, w, ps) {
        PutsShow(fields, k, w, ps);
      }
    } else {
      var j: nat :| j < |fields| && j != k && fields[j].width <= 64 && !Apart(fields[k], fields[j]);
      fields[k].SharedBitShows(fields[j]);
      OnePut(fields, Zeros(), Write(j, Ones()));
      assert !Shows(fields, k, Zeros(), [Write(j, Ones())]);
    }
  }

  lemma RunPush(ds: seq<Decl>, d: Decl)
    ensures Run(ds + [d]) == Step(Run(ds), d)
  {
    assert (ds + [d])[..|ds|] == ds;
  }

  lemma FourFields(a: Decl, b: Decl, c: Decl, d: Decl)
    requires a == AField(15) && b == AField(3) && c == AField(1) && d == AReserve(4)
    ensures Run([] + [a] + [a] + [b] + [c] + [d]) ==
            Declared(38, [Span(0, 15)] + [Span(15, 15)] + [Span(30, 3)] + [Span(33, 1)])
  {
    RunPush([], a);
    RunPush([] + [a], a);
    RunPush([] + [a] + [a], b);
    RunPush([] + [a] + [a] + [b], c);
    RunPush([] + [a] + [a] + [b] + [c], d);
  }

  /** The layout the package's own test declares: bits 34 to 37 are reserved and the last field ends at the top. */
  lemma TestLayout()
    ensures Run([AField(15), AField(15), AField(3), AField(1), AReserve(4), AField(9), AField(17)]) ==
            Declared(64, [Span(0, 15), Span(15, 15), Span(30, 3), Span(33, 1), Span(38, 9), Span(47, 17)])
  {
    var ds := [AField(15), AField(15), AField(3), AField(1), AReserve(4), AField(9), AField(17)];
    var first := [] + [ds[0]] + [ds[0]] + [ds[2]] + [ds[3]] + [ds[4]];
    FourFields(ds[0], ds[2], ds[3], ds[4]);
    RunPush(first, ds[5]);
    RunPush(first + [ds[5]], ds[6]);
    assert first + [ds[5]] + [ds[6]] == ds;
  }

  lemma OverlapIsDeclared(a: Decl, b: Decl)
    requires a == AField(8) && b == AReserve(0xFFFF_FFFF_FFFF_FFF8)
    ensures Run([] + [a] + [b] + [a]) == Declared(8, [Span(0, 8), Span(0, 8)])
  {
    RunPush([], a);
    RunPush([] + [a], b);
    RunPush([] + [a] + [b], a);
  }

  /** A layout whose wrapped reservation is granted, so that its two fields are the same eight bits. */
  lemma WrappedFieldsOverlap()
    ensures Run([AField(8), AReserve(0xFFFF_FFFF_FFFF_FFF8), AField(8)]) == Declared(8, [Span(0, 8), Span(0, 8)])
    ensures !KeepsToItself([Span(0, 8), Span(0, 8)], 0)
  {
    var ds := [AField(8), AReserve(0xFFFF_FFFF_FFFF_FFF8), AField(8)];
    OverlapIsDeclared(ds[0], ds[1]);
    assert [] + [ds[0]] + [ds[1]] + [ds[0]] == ds;
    KeepsToItselfExactly(ds, 0);
    assert !Apart(Run(ds).fields[0], Run(ds).fields[1]);
  }
}
