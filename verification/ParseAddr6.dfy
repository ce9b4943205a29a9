/** addr.go, parseAddr6: the loops themselves, proved against the denotation of the text. */
module ParseAddr6 {
  import opened Words
  import opened Addr
  import opened Parse4
  import opened Parse6
  import opened Text
  import Written6

  /** The hex digit loop: one maximal run from `start`, or `!ok` if it is empty or too long for an h16. */
  method ScanHex(b: seq<byte>, start: nat) returns (v: nat, i: nat, ok: bool)
    requires start <= |b|
    ensures ok ==> start < i <= |b| && H16(b[start..i]) && v == H16Value(b[start..i])
    ensures ok && i < |b| ==> !IsHex(b[i])
    ensures !ok ==> !H16(b[start..][..FirstColon(b[start..])])
  {
    var digits: nat := 0;
    v, i := 0, start;
    while i < |b| && IsHex(b[i])
      invariant start <= i <= |b| && digits == i - start <= 4
      invariant AllHex(b[start..i]) && v == Hex(b[start..i])
    {
      HexPush(b, start, i);
      v := v * 16 + HexVal(b[i]);
      digits := digits + 1;
      i := i + 1;
      if digits > 4 {
        assert b[start..][..i - start] == b[start..i];
        LongRun(b[start..], i - start);
        return v, i, false;
      }
    }
    ok := digits != 0;
    if ok {
      HexBound(b[start..i]);
    } else {
      EmptyRun(b[start..]);
    }
  }

  lemma LongRun(t: seq<byte>, n: nat)
    requires 4 < n <= |t| && AllHex(t[..n])
    ensures !H16(t[..FirstColon(t)])
  {
    forall i | 0 <= i < n ensures t[i] != COLON {
      assert IsHex(t[..n][i]);
    }
  }

  lemma EmptyRun(t: seq<byte>)
    requires t != [] ==> !IsHex(t[0])
    ensures !H16(t[..FirstColon(t)])
  {
    var c := FirstColon(t);
    if c > 0 {
      assert t[..c][0] == t[0];
    }
  }

  /** A run that stops before the end stops at the first colon or spoils the piece. */
  lemma RunEnds(t: seq<byte>, n: nat)
    requires n <= |t| && H16(t[..n]) && (n < |t| ==> !IsHex(t[n]))
    ensures n == |t| || t[n] == COLON ==> FirstColon(t) == n
    ensures n < |t| && t[n] != COLON ==> !H16(t[..FirstColon(t)])
  {
    forall i | 0 <= i < n ensures t[i] != COLON {
      assert t[i] == t[..n][i];
    }
    if n == |t| || t[n] == COLON {
      FirstColonIs(t, n);
    } else {
      var c := FirstColon(t);
      assert c > n;
      assert t[..c][n] == t[n];
    }
  }

  /** The first `n` groups of a buffer whose others are still zero. */
  ghost predicate Holds(groups: array<u16>, g: seq<u16>)
    reads groups
  {
    && groups.Length == 8 && |g| <= 8 && groups[..|g|] == g
    && forall k :: |g| <= k < 8 ==> groups[k] == 0
  }

  /** The switch after the loop: nothing to do, too many groups, or the groups after the gap slid to the end. */
  method Slide(groups: array<u16>, n: nat, gap: int, ghost g: seq<u16>) returns (ok: bool)
    requires Holds(groups, g) && n == |g| && -1 <= gap <= n
    modifies groups
    ensures ok <==> Finish(g, gap).Some?
    ensures ok ==> groups[..] == Finish(g, gap).value
  {
    if gap < 0 {
      assert groups[..8] == groups[..];
      return n == 8;
    }
    if n >= 8 {
      return false;
    }
    var shift := 8 - n;
    var j := n - 1;
    while j >= gap
      invariant gap - 1 <= j < n
      invariant forall k :: 0 <= k <= j ==> groups[k] == g[k]
      invariant forall k :: j < k <= j + shift ==> groups[k] == 0
      invariant forall k :: j + shift < k < 8 ==> groups[k] == g[k - shift]
    {
      groups[j + shift] := groups[j];
      groups[j] := 0;
      j := j - 1;
    }
    ok := true;
    assert groups[..] == g[..gap] + Zeros(shift) + g[gap..];
  }

  /** What follows a group: the end, a colon, or the gap; `more` tells whether a group must come. */
  method ScanSeparator(b: seq<byte>, from: nat, n: nat, gap: int, ghost g: seq<u16>)
    returns (i: nat, gap': int, more: bool, ok: bool)
    requires from <= |b| && n == |g| && -1 <= gap <= n && (from < |b| ==> b[from] == COLON)
    ensures from <= i <= |b| && -1 <= gap' <= n && (ok && more ==> i < |b|)
    ensures AfterGroup(b[from..], g, gap) ==
            if !ok then None else if more then Rest(b[i..], g, gap') else Finish(g, gap')
  {
    i, gap', more, ok := from, gap, false, false;
    ghost var u := b[from..];
    if i == |b| {
      ok := true;
      return;
    }
    i := i + 1;
    assert b[i..] == u[1..];
    if i < |b| && b[i] == COLON {
      if gap >= 0 {
        return;
      }
      gap' := n;
      i := i + 1;
      assert b[i..] == u[2..];
      more, ok := i < |b|, true;
    } else if i < |b| {
      more, ok := true, true;
    }
  }

  /** One group and the separator after it; `more` tells whether the loop goes on. */
  method ScanGroup(b: seq<byte>, from: nat, groups: array<u16>, n: nat, gap: int, ghost g: seq<u16>)
    returns (i: nat, n': nat, gap': int, more: bool, ok: bool, ghost g': seq<u16>)
    requires from < |b| && Holds(groups, g) && n == |g| && -1 <= gap <= n
    modifies groups
    ensures ok ==> from < i <= |b| && Holds(groups, g') && n' == |g'| && -1 <= gap' <= n' && (more ==> i < |b|)
    ensures Rest(b[from..], g, gap) ==
            if !ok then None else if more then Rest(b[i..], g', gap') else Finish(g', gap')
  {
    i, n', gap', more, ok, g' := from, n, gap, false, false, g;
    ghost var t := b[from..];
    var v4, quad := ParseAddr4(b[from..]);
    if quad {
      if n <= 6 {
        groups[n] := v4 / 0x1_0000;
        groups[n + 1] := v4 % 0x1_0000;
        i, n', ok := |b|, n + 2, true;
        g' := g + [v4 / 0x1_0000, v4 % 0x1_0000];
      }
      return;
    }
    var v, end, good := ScanHex(b, from);
    if !good {
      return;
    }
    assert b[from..end] == t[..end - from];
    RunEnds(t, end - from);
    if n == 8 || (end < |b| && b[end] != COLON) {
      return;
    }
    groups[n] := v;
    n', g' := n + 1, g + [v];
    assert b[end..] == t[end - from..];
    i, gap', more, ok := ScanSeparator(b, end, n', gap, g');
  }

  function Horner(s: seq<u16>): nat {
    if s == [] then 0 else Horner(s[..|s| - 1]) * 0x1_0000 + s[|s| - 1]
  }

  lemma HornerFour(s: seq<u16>)
    requires |s| == 4
    ensures Horner(s) == Word4(s[0], s[1], s[2], s[3])
  {
    assert s[..3][..2] == s[..2] && s[..2][..1] == s[..1] && s[..1][..0] == [];
    assert Horner(s[..1]) == s[0];
    assert Horner(s[..2]) == s[0] as int * 0x1_0000 + s[1];
  }

  /** The words of eight groups. */
  method Combine(groups: array<u16>) returns (a: Addr6)
    requires groups.Length == 8
    ensures a == GroupsAddr(groups[..])
  {
    var hi: nat, lo: nat := 0, 0;
    for j := 0 to 4
      invariant hi == Horner(groups[..j]) && lo == Horner(groups[4..4 + j])
    {
      assert groups[..j + 1][..j] == groups[..j] && groups[4..4 + j + 1][..j] == groups[4..4 + j];
      hi, lo := hi * 0x1_0000 + groups[j], lo * 0x1_0000 + groups[4 + j];
    }
    HornerFour(groups[..4]);
    HornerFour(groups[4..8]);
    a := Addr6(hi, lo);
  }

  /** The loop over groups, the slide and the combination. */
  method ReadGroups(b: seq<byte>) returns (a: Addr6, ok: bool)
    ensures ok <==> Parse(b).Some?
    ensures a == if ok then GroupsAddr(Parse(b).value) else Addr6(0, 0)
  {
    var groups := new u16[8](_ => 0);
    var n, gap := 0, -1;
    if |b| < 2 {
      return Addr6(0, 0), false;
    }
    var i := 0;
    if b[0] == COLON {
      if b[1] != COLON {
        return Addr6(0, 0), false;
      }
      gap, i := 0, 2;
      if i == |b| {
        return Addr6(0, 0), true;
      }
    }
    ghost var g: seq<u16> := [];
    var more := true;
    while more
      invariant 0 <= i <= |b| && Holds(groups, g) && n == |g| && -1 <= gap <= n
      invariant more ==> i < |b| && Parse(b) == Rest(b[i..], g, gap)
      invariant !more ==> Parse(b) == Finish(g, gap)
      decreases |b| - i, more
    {
      var good;
      i, n, gap, more, good, g := ScanGroup(b, i, groups, n, gap, g);
      if !good {
        return Addr6(0, 0), false;
      }
    }
    var fits := Slide(groups, n, gap, g);
    if !fits {
      return Addr6(0, 0), false;
    }
    a := Combine(groups);
    ok := true;
  }

  /** parseAddr6: every text that writes eight groups gives the address of their bytes; other texts are refused. */
  method ParseAddr6(b: seq<byte>) returns (a: Addr6, ok: bool)
    ensures forall gs :: Writes(b, gs) ==> ok && a == Words16(GroupBytes(gs))
    ensures ok ==> exists gs :: Writes(b, gs)
    ensures !ok ==> a == Addr6(0, 0)
    ensures ok <==> Parse(b).Some?
  {
    a, ok := ReadGroups(b);
    Written6.ParseGivesBytes(b);
  }
}
