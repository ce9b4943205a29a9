/**
 * How addresses are written, without reference to how they are read: the dotted quad of section 3.2.2 of RFC 3986 and
 * the 128-bit forms of section 2.2 of RFC 4291.
 */
module Text {
  import opened Words

  /** A decimal digit, as a byte. */
  function DecimalChar(n: nat): byte
    requires n < 10
  {
    match n
    case 0 => '0' as int case 1 => '1' as int case 2 => '2' as int case 3 => '3' as int
    case 4 => '4' as int case 5 => '5' as int case 6 => '6' as int case 7 => '7' as int
    case 8 => '8' as int case 9 => '9' as int
  }

  /** A hex digit in lower case, and in upper case. */
  function LowerChar(n: nat): byte
    requires n < 16
  {
    match n
    case 10 => 'a' as int case 11 => 'b' as int case 12 => 'c' as int
    case 13 => 'd' as int case 14 => 'e' as int case 15 => 'f' as int
    case _ => DecimalChar(n)
  }

  function UpperChar(n: nat): byte
    requires n < 16
  {
    match n
    case 10 => 'A' as int case 11 => 'B' as int case 12 => 'C' as int
    case 13 => 'D' as int case 14 => 'E' as int case 15 => 'F' as int
    case _ => DecimalChar(n)
  }

  /** A number in decimal, without leading zeros. */
  function DecimalText(v: nat): (s: seq<byte>)
    ensures s != []
  {
    if v < 10 then [DecimalChar(v)] else DecimalText(v / 10) + [DecimalChar(v % 10)]
  }

  /** The dotted quad of a 32-bit number, most significant octet first. */
  function Dotted(ip: u32): (s: seq<byte>) {
    var dot: seq<byte> := ['.' as int];
    DecimalText(ip / 0x100_0000) + dot + (DecimalText(ip / 0x1_0000 % 0x100) + dot +
    (DecimalText(ip / 0x100 % 0x100) + dot + DecimalText(ip % 0x100)))
  }

  /** `c` is hex digit `n`, in either case. */
  predicate IsHexChar(c: byte, n: nat) {
    n < 16 && (c == LowerChar(n) || c == UpperChar(n))
  }

  /** Hex digit `k` of a group, the most significant being digit 0. */
  function Nibble(v: u16, k: nat): nat
    requires k < 4
  {
    v / (if k == 0 then 0x1000 else if k == 1 then 0x100 else if k == 2 then 0x10 else 1) % 16
  }

  /** `s` writes a group: up to four hex digits, leading zeros written or not. */
  predicate Spells(s: seq<byte>, v: u16) {
    && 1 <= |s| <= 4
    && (forall k :: 0 <= k < 4 - |s| ==> Nibble(v, k) == 0)
    && forall k :: 4 - |s| <= k < 4 ==> IsHexChar(s[k - (4 - |s|)], Nibble(v, k))
  }

  /** `s` writes the first group and `u` the others, after a colon. */
  ghost predicate Colon(t: seq<byte>, s: seq<byte>, u: seq<byte>) {
    t == s + [':' as int] + u
  }

  /** `t` is the dotted quad of two groups. */
  predicate Paired(t: seq<byte>, gs: seq<u16>) {
    |gs| == 2 && t == Dotted(gs[0] as int * 0x1_0000 + gs[1])
  }

  /** `t` writes the groups, at least one, with colons between; with `quad` the last two may be a dotted quad. */
  ghost predicate Listed(t: seq<byte>, gs: seq<u16>, quad: bool)
    decreases |gs|
  {
    || (|gs| == 1 && Spells(t, gs[0]))
    || (quad && Paired(t, gs))
    || (|gs| >= 2 && exists s, u :: Colon(t, s, u) && Spells(s, gs[0]) && Listed(u, gs[1..], quad))
  }

  /** The same for any number of groups. */
  ghost predicate Side(t: seq<byte>, gs: seq<u16>, quad: bool) {
    if gs == [] then t == [] else Listed(t, gs, quad)
  }

  /** `l` and `r` write the groups outside the run of zero groups `[i, j)` that "::" stands for. */
  ghost predicate Elided(t: seq<byte>, gs: seq<u16>, i: nat, j: nat, l: seq<byte>, r: seq<byte>) {
    && i < j <= |gs| && (forall k :: i <= k < j ==> gs[k] == 0)
    && t == l + [':' as int, ':' as int] + r
    && Side(l, gs[..i], false) && Side(r, gs[j..], true)
  }

  /** `t` writes the eight groups: all of them, or with one run of one or more zero groups elided. */
  ghost predicate Writes(t: seq<byte>, gs: seq<u16>) {
    && |gs| == 8
    && (Listed(t, gs, true) || exists i: nat, j: nat, l, r :: Elided(t, gs, i, j, l, r))
  }

  /** The sixteen bytes of eight groups, the high byte of each group first. */
  function GroupBytes(gs: seq<u16>): (b: seq<byte>)
    requires |gs| == 8
    ensures |b| == 16
  {
    seq(16, k requires 0 <= k < 16 => if k % 2 == 0 then gs[k / 2] / 0x100 else gs[k / 2] % 0x100)
  }
}
