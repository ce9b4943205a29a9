/** addr.go: the two address representations, and netip addresses as the keys they denote. */
module Addr {
  import opened Words
  import opened LittleEndian

  /** A 128-bit address as two words, high first. */
  datatype Addr6 = Addr6(hi: u64, lo: u64)

  function Num(a: Addr6): (x: nat) {
    a.hi * 0x1_0000_0000_0000_0000 + a.lo
  }

  predicate Less(a: Addr6, b: Addr6) {
    a.hi < b.hi || (a.hi == b.hi && a.lo < b.lo)
  }

  /** Ordering by (hi, lo) is numeric order, and the number determines the address. */
  lemma LessIsNumeric(a: Addr6, b: Addr6)
    ensures Less(a, b) <==> Num(a) < Num(b)
    ensures a == b <==> Num(a) == Num(b)
    ensures Num(a) / 0x1_0000_0000_0000_0000 == a.hi
    ensures Num(a) % 0x1_0000_0000_0000_0000 == a.lo
  {
  }

  const TOP: int := 0xFFFF_FFFF_FFFF_FFFF_FFFF_FFFF_FFFF_FFFF

  function Increment(x: u64): u64 {
    if x == 0xFFFF_FFFF_FFFF_FFFF then 0 else x + 1
  }

  /** The following address, carrying across the word boundary; it wraps at the top of the space. */
  function Next(a: Addr6): (r: Addr6)
    ensures Num(r) == if Num(a) == TOP then 0 else Num(a) + 1
    ensures Less(r, a) <==> Num(a) == TOP
  {
    var lo := Increment(a.lo);
    Addr6(if lo == 0 then Increment(a.hi) else a.hi, lo)
  }

  /** A big-endian number: the byte order of netip addresses. */
  function BigEndian(b: seq<byte>): (x: nat)
    ensures x < Pow256(|b|)
  {
    if b == [] then 0 else BigEndian(b[..|b| - 1]) * 256 + b[|b| - 1]
  }

  type Bytes4 = s: seq<byte> | |s| == 4 witness [0, 0, 0, 0]
  type Bytes16 = s: seq<byte> | |s| == 16 witness seq(16, _ => 0)

  function Ip4(b: Bytes4): (ip: u32) {
    (b[0] as int) * 0x100_0000 + (b[1] as int) * 0x1_0000 + (b[2] as int) * 0x100 + b[3]
  }

  /** Eight bytes as one number, written out. */
  lemma BigEndianEight(b: seq<byte>)
    requires |b| == 8
    ensures BigEndian(b) == (b[0] as int) * 0x100_0000_0000_0000 + (b[1] as int) * 0x1_0000_0000_0000
                            + (b[2] as int) * 0x100_0000_0000 + (b[3] as int) * 0x1_0000_0000
                            + (b[4] as int) * 0x100_0000 + (b[5] as int) * 0x1_0000 + (b[6] as int) * 0x100 + b[7]
  {
    BigEndianFour(b[..4]);
    BigEndianFour(b[4..]);
    assert b == b[..4] + b[4..];
    Pow256Values();
    BigEndianConcat(b[..4], b[4..]);
  }

  ghost function Words16(b: Bytes16): (a: Addr6) {
    Pow256Values();
    Addr6(BigEndian(b[..8]), BigEndian(b[8..]))
  }

  method Addr6Of(b: Bytes16) returns (r: Addr6)
    ensures r == Words16(b)
  {
    Pow256Values();
    var hi: nat, lo: nat := 0, 0;
    for i := 0 to 8
      invariant hi == BigEndian(b[..i]) && lo == BigEndian(b[8..8 + i])
    {
      assert b[..i + 1][..i] == b[..i] && b[8..8 + i + 1][..i] == b[8..8 + i];
      hi, lo := hi * 256 + b[i], lo * 256 + b[8 + i];
    }
    assert b[8..8 + 8] == b[8..];
    r := Addr6(hi, lo);
  }

  /** Byte `i` of a 64-bit word, most significant first. */
  function BytesOfWord(x: u64): (b: seq<byte>)
    ensures |b| == 8
  {
    seq(8, i requires 0 <= i < 8 => x / Pow256(7 - i) % 256)
  }

  method AddrBytes(a: Addr6) returns (b: Bytes16)
    ensures b == BytesOfWord(a.hi) + BytesOfWord(a.lo)
  {
    var buf := new byte[16](_ => 0);
    for i := 0 to 8
      invariant forall k :: 0 <= k < i ==> buf[k] == BytesOfWord(a.hi)[k] && buf[8 + k] == BytesOfWord(a.lo)[k]
    {
      buf[i] := a.hi / Pow256(7 - i) % 256;
      buf[8 + i] := a.lo / Pow256(7 - i) % 256;
    }
    b := buf[..];
  }

  /** One digit more of a quotient. */
  lemma TakeDigit(x: nat, p: nat)
    requires p >= 1
    ensures x / p == x / (256 * p) * 256 + x / p % 256
  {
    DivDiv(x, p);
  }

  /** One digit less. */
  lemma DropDigit(x: nat, p: nat, q: nat, d: byte)
    requires p >= 1 && x / p == q * 256 + d
    ensures x / (256 * p) == q && x / p % 256 == d
  {
    DivDiv(x, p);
  }

  lemma TopIsZero(x: nat, p: nat)
    requires x < p
    ensures x / p == 0
  {
  }

  lemma {:induction false} BigEndianOfBytes(x: u64, k: nat)
    requires k <= 8
    ensures BigEndian(BytesOfWord(x)[..k]) == x / Pow256(8 - k)
  {
    if k == 0 {
      Pow256Values();
      TopIsZero(x, Pow256(8));
    } else {
      BigEndianOfBytes(x, k - 1);
      var b := BytesOfWord(x)[..k];
      assert b[..k - 1] == BytesOfWord(x)[..k - 1];
      var p := Pow256(8 - k);
      assert Pow256(8 - (k - 1)) == 256 * p;
      TakeDigit(x, p);
    }
  }

  lemma WordOfBytes(x: u64)
    ensures BigEndian(BytesOfWord(x)) == x
  {
    BigEndianOfBytes(x, 8);
    assert BytesOfWord(x)[..8] == BytesOfWord(x);
  }

  lemma {:induction false} BigEndianPrefix(b: seq<byte>, k: nat)
    requires k <= |b|
    ensures BigEndian(b) / Pow256(|b| - k) == BigEndian(b[..k])
    decreases |b| - k
  {
    if k == |b| {
      assert b[..k] == b;
    } else {
      var p := Pow256(|b| - k - 1);
      BigEndianPrefix(b, k + 1);
      assert b[..k + 1][..k] == b[..k];
      DropDigit(BigEndian(b), p, BigEndian(b[..k]), b[k]);
      assert Pow256(|b| - k) == 256 * p;
    }
  }

  /** Eight bytes are the bytes of the word they spell. */
  lemma BytesOfBigEndian(b: seq<byte>)
    requires |b| == 8
    ensures BigEndian(b) < 0x1_0000_0000_0000_0000 && BytesOfWord(BigEndian(b)) == b
  {
    Pow256Values();
    forall i: nat | i < 8 ensures BytesOfWord(BigEndian(b))[i] == b[i] {
      BigEndianByte(b, i);
    }
  }

  lemma BigEndianByte(b: seq<byte>, i: nat)
    requires i < |b|
    ensures BigEndian(b) / Pow256(|b| - 1 - i) % 256 == b[i]
  {
    BigEndianPrefix(b, i + 1);
    assert b[..i + 1][..i] == b[..i];
    DropDigit(BigEndian(b), Pow256(|b| - 1 - i), BigEndian(b[..i]), b[i]);
  }

  /** The two conversions undo each other, in either order. */
  lemma BytesRoundTrip(b: Bytes16)
    ensures BytesOfWord(Words16(b).hi) + BytesOfWord(Words16(b).lo) == b
  {
    BytesOfBigEndian(b[..8]);
    BytesOfBigEndian(b[8..]);
    assert b == b[..8] + b[8..];
  }

  lemma AddrRoundTrip(a: Addr6)
    ensures Words16(BytesOfWord(a.hi) + BytesOfWord(a.lo)) == a
  {
    WordOfBytes(a.hi);
    WordOfBytes(a.lo);
    var b := BytesOfWord(a.hi) + BytesOfWord(a.lo);
    assert b[..8] == BytesOfWord(a.hi) && b[8..] == BytesOfWord(a.lo);
  }

  /** A netip.Addr: the zero value, a 4-byte address, or a 16-byte address with a possibly empty zone. */
  datatype Address = Invalid | V4(b4: Bytes4) | V6(b16: Bytes16, zone: string)

  predicate Is4In6(a: Address) {
    a.V6? && (forall i :: 0 <= i < 10 ==> a.b16[i] == 0) && a.b16[10] == 0xFF && a.b16[11] == 0xFF
  }

  function Unmap(a: Address): Address {
    if Is4In6(a) then V4(a.b16[12..]) else a
  }

  /** What an artifact stores an address under. */
  datatype Key = Key4(ip: u32) | Key6(a: Addr6)

  /** The key an address denotes: none for an invalid or zoned one; a 4-in-6 address denotes its 32-bit host. */
  ghost function KeyOf(a: Address): (k: Option<Key>) {
    if a.Invalid? || (a.V6? && a.zone != "") then None
    else
      match Unmap(a)
      case V4(b) => Some(Key4(Ip4(b)))
      case V6(b, _) => Some(Key6(Words16(b)))
  }

  /** Both spellings of a 32-bit host denote the same key. */
  lemma SpellingsAgree(b: Bytes4)
    ensures KeyOf(V6([0, 0, 0, 0, 0, 0, 0, 0, 0, 0, 0xFF, 0xFF] + b, "")) == KeyOf(V4(b))
  {
    var m: Bytes16 := [0, 0, 0, 0, 0, 0, 0, 0, 0, 0, 0xFF, 0xFF] + b;
    assert m[12..] == b;
    assert Is4In6(V6(m, ""));
  }

  lemma SameDigits(p: nat, x: byte, q: nat, y: byte)
    ensures p * 0x100 + x == q * 0x100 + y <==> p == q && x == y
  {
  }

  lemma Ip4IsInjective(b: Bytes4, c: Bytes4)
    ensures Ip4(b) == Ip4(c) <==> b == c
  {
    var b0: nat, c0: nat := b[0], c[0];
    var b1: nat, c1: nat := b0 * 0x100 + b[1], c0 * 0x100 + c[1];
    var b2: nat, c2: nat := b1 * 0x100 + b[2], c1 * 0x100 + c[2];
    SameDigits(b0, b[1], c0, c[1]);
    SameDigits(b1, b[2], c1, c[2]);
    SameDigits(b2, b[3], c2, c[3]);
    assert Ip4(b) == b2 * 0x100 + b[3] && Ip4(c) == c2 * 0x100 + c[3];
  }

  /** Two addresses share a key exactly when they are the same address once unmapped. */
  lemma KeysAreUnmappedAddresses(a: Address, b: Address)
    requires KeyOf(a).Some? && KeyOf(b).Some?
    ensures KeyOf(a) == KeyOf(b) <==> Unmap(a) == Unmap(b)
  {
    match (Unmap(a), Unmap(b))
    case (V4(x), V4(y)) => Ip4IsInjective(x, y);
    case (V6(x, _), V6(y, _)) =>
      BytesRoundTrip(x);
      BytesRoundTrip(y);
    case _ =>
  }

  /** The key of every address, from its bytes. */
  lemma KeyFromBytes(a: Address)
    ensures a.Invalid? || (a.V6? && a.zone != "") ==> KeyOf(a) == None
    ensures a.V4? ==>
              var b := a.b4;
              KeyOf(a) ==
              Some(Key4((b[0] as int) * 0x100_0000 + (b[1] as int) * 0x1_0000 + (b[2] as int) * 0x100 + b[3]))
    ensures a.V6? && a.zone == "" && MappedBytes(a.b16) ==>
              var b := a.b16;
              KeyOf(a) ==
              Some(Key4((b[12] as int) * 0x100_0000 + (b[13] as int) * 0x1_0000 + (b[14] as int) * 0x100 + b[15]))
    ensures a.V6? && a.zone == "" && !MappedBytes(a.b16) ==>
              KeyOf(a) == Some(Key6(Addr6(WordFrom(a.b16, 0), WordFrom(a.b16, 8))))
  {
    if a.V6? {
      var b := a.b16;
      BigEndianEight(b[..8]);
      BigEndianEight(b[8..]);
    }
  }

  /** The bytes of ::ffff:a.b.c.d. */
  predicate MappedBytes(b: Bytes16) {
    && b[0] == 0 && b[1] == 0 && b[2] == 0 && b[3] == 0 && b[4] == 0 && b[5] == 0 && b[6] == 0 && b[7] == 0
    && b[8] == 0 && b[9] == 0 && b[10] == 0xFF && b[11] == 0xFF
  }

  /** The word of the eight bytes from `k` on, the first of them highest. */
  function WordFrom(b: Bytes16, k: nat): u64
    requires k <= 8
  {
    (b[k] as int) * 0x100_0000_0000_0000 + (b[k + 1] as int) * 0x1_0000_0000_0000
    + (b[k + 2] as int) * 0x100_0000_0000 + (b[k + 3] as int) * 0x1_0000_0000
    + (b[k + 4] as int) * 0x100_0000 + (b[k + 5] as int) * 0x1_0000 + (b[k + 6] as int) * 0x100 + b[k + 7]
  }

  // ---- the keys that addresses denote ----

  /** In ::ffff:0:0/96, the 4-in-6 block. */
  predicate Mapped(a: Addr6) {
    a.hi == 0 && a.lo / 0x1_0000_0000 == 0xFFFF
  }

  lemma {:induction false} BigEndianZero(b: seq<byte>)
    ensures BigEndian(b) == 0 <==> forall i :: 0 <= i < |b| ==> b[i] == 0
  {
    if b != [] {
      BigEndianZero(b[..|b| - 1]);
    }
  }

  lemma BigEndianFour(b: Bytes4)
    ensures BigEndian(b) == Ip4(b)
  {
    assert b[..3][..2] == b[..2] && b[..2][..1] == b[..1];
    assert BigEndian(b[..1]) == b[0];
    assert BigEndian(b[..2]) == BigEndian(b[..1]) * 256 + b[1];
    assert BigEndian(b[..3]) == BigEndian(b[..2]) * 256 + b[2];
  }

  /** The top half of the low word is the number of its first four bytes. */
  lemma LowTop(b: Bytes16)
    ensures Words16(b).lo / 0x1_0000_0000 == Ip4(b[8..12])
  {
    Pow256Values();
    BigEndianPrefix(b[8..], 4);
    assert b[8..][..4] == b[8..12];
    BigEndianFour(b[8..12]);
  }

  /** An address is 4-in-6 exactly when its number lies in the block. */
  lemma MappedIs4In6(b: Bytes16, zone: string)
    ensures Is4In6(V6(b, zone)) <==> Mapped(Words16(b))
  {
    var mid: Bytes4, mark: Bytes4 := b[8..12], [0, 0, 0xFF, 0xFF];
    BigEndianZero(b[..8]);
    LowTop(b);
    Ip4IsInjective(mid, mark);
    assert forall i :: 0 <= i < 8 ==> b[..8][i] == b[i];
    assert mid[0] == b[8] && mid[1] == b[9] && mid[2] == b[10] && mid[3] == b[11];
  }

  /** A key some address denotes: a 128-bit one is never 4-in-6, since those are unmapped first. */
  predicate Storable(k: Key) {
    k.Key6? ==> !Mapped(k.a)
  }

  lemma KeyIsStorable(a: Address)
    requires KeyOf(a).Some?
    ensures Storable(KeyOf(a).value)
  {
    if a.V6? {
      MappedIs4In6(a.b16, a.zone);
    }
  }

  function BytesOf4(ip: u32): Bytes4 {
    var a := ip / 0x100;
    var b := a / 0x100;
    [b / 0x100, b % 0x100, a % 0x100, ip % 0x100]
  }

  lemma Ip4OfBytes(ip: u32)
    ensures Ip4(BytesOf4(ip)) == ip
  {
  }

  /** The address a key spells. */
  function AddressOf(k: Key): Address {
    match k
    case Key4(ip) => V4(BytesOf4(ip))
    case Key6(a) => V6(BytesOfWord(a.hi) + BytesOfWord(a.lo), "")
  }

  /** A storable key is the key of the address it spells; a 4-in-6 one is spelt by its 32-bit host instead. */
  lemma AddressHasKey(k: Key)
    ensures KeyOf(AddressOf(k)) == Some(if Storable(k) then k else Key4(k.a.lo % 0x1_0000_0000))
  {
    match k
    case Key4(ip) =>
      Ip4OfBytes(ip);
    case Key6(a) =>
      var b: Bytes16 := BytesOfWord(a.hi) + BytesOfWord(a.lo);
      AddrRoundTrip(a);
      MappedIs4In6(b, "");
      if Mapped(a) {
        HostOfMapped(b);
      }
  }

  /** The last four bytes are the low half of the low word. */
  lemma HostOfMapped(b: Bytes16)
    ensures Ip4(b[12..]) == Words16(b).lo % 0x1_0000_0000
  {
    var low: seq<byte> := b[8..];
    BigEndianConcat(low[..4], low[4..]);
    assert low == low[..4] + low[4..];
    assert low[4..] == b[12..];
    Pow256Values();
    BigEndianFour(b[12..]);
    LowPart(Words16(b).lo, BigEndian(low[..4]), Ip4(b[12..]));
  }

  lemma LowPart(x: nat, h: nat, l: u32)
    requires x == h * 0x1_0000_0000 + l
    ensures x % 0x1_0000_0000 == l
  {
  }

  lemma {:induction false} BigEndianConcat(a: seq<byte>, b: seq<byte>)
    ensures BigEndian(a + b) == BigEndian(a) * Pow256(|b|) + BigEndian(b)
  {
    if b == [] {
      assert a + b == a;
    } else {
      var n := |b| - 1;
      BigEndianConcat(a, b[..n]);
      assert (a + b)[..|a + b| - 1] == a + b[..n];
      ShiftedSum(BigEndian(a), Pow256(n), BigEndian(b[..n]), b[n], BigEndian(a + b[..n]));
    }
  }

  lemma ShiftedSum(a: nat, p: nat, b: nat, d: nat, x: nat)
    requires x == a * p + b
    ensures x * 256 + d == a * (256 * p) + (b * 256 + d)
  {
  }
}
