/** addr.go, parseAddr6: the textual 128-bit forms of section 2.2 of RFC 4291. */
module Parse6 {
  import opened Words
  import opened Addr
  import opened Parse4

  const COLON: byte := 0x3A

  predicate IsHex(c: byte) {
    0x30 <= c <= 0x39 || 0x61 <= c <= 0x66 || 0x41 <= c <= 0x46
  }

  function HexVal(c: byte): (v: nat)
    requires IsHex(c)
    ensures v < 16
  {
    if c <= 0x39 then c - 0x30
    else if c >= 0x61 then c - 0x61 + 10
    else c - 0x41 + 10
  }

  predicate AllHex(s: seq<byte>) {
    forall i :: 0 <= i < |s| ==> IsHex(s[i])
  }

  /** h16 = 1*4HEXDIG */
  predicate H16(s: seq<byte>) {
    1 <= |s| <= 4 && AllHex(s)
  }

  function Hex(s: seq<byte>): (v: nat)
    requires AllHex(s)
  {
    if s == [] then 0 else Hex(s[..|s| - 1]) * 16 + HexVal(s[|s| - 1])
  }

  lemma {:induction false} HexBound(s: seq<byte>)
    requires |s| <= 4 && AllHex(s)
    ensures Hex(s) < [1, 0x10, 0x100, 0x1000, 0x1_0000][|s|]
  {
    if s != [] {
      HexBound(s[..|s| - 1]);
    }
  }

  /** One hex digit more. */
  lemma HexPush(b: seq<byte>, start: nat, i: nat)
    requires start <= i < |b| && AllHex(b[start..i]) && IsHex(b[i])
    ensures AllHex(b[start..i + 1]) && Hex(b[start..i + 1]) == Hex(b[start..i]) * 16 + HexVal(b[i])
  {
    assert b[start..i + 1] == b[start..i] + [b[i]];
    assert b[start..i + 1][..i - start] == b[start..i];
  }

  function H16Value(s: seq<byte>): (v: u16)
    requires H16(s)
  {
    HexBound(s);
    Hex(s)
  }

  /** The index of the first colon, or the length when there is none. */
  function FirstColon(t: seq<byte>): (c: nat)
    ensures c <= |t|
    ensures forall i :: 0 <= i < c ==> t[i] != COLON
    ensures c < |t| ==> t[c] == COLON
  {
    if t == [] || t[0] == COLON then 0 else 1 + FirstColon(t[1..])
  }

  /** The last piece of a group list: an h16, or a dotted quad standing for two groups. */
  function Last(t: seq<byte>): (r: Option<seq<u16>>) {
    if H16(t) then Some([H16Value(t)])
    else
      match Quad(t)
      case None => None
      case Some(ip) => Some([ip / 0x1_0000, ip % 0x1_0000])
  }

  /** Groups separated by single colons; only the last may be a dotted quad, and only when `quad` allows it. */
  function ListOf(t: seq<byte>, quad: bool): (r: Option<seq<u16>>)
    ensures r.Some? ==> |r.value| >= 1
  {
    var c := FirstColon(t);
    if c == |t| then
      if quad || H16(t) then Last(t) else None
    else if !H16(t[..c]) then None
    else
      Cons(H16Value(t[..c]), ListOf(t[c + 1..], quad))
  }

  function Cons(v: u16, rest: Option<seq<u16>>): (r: Option<seq<u16>>)
    ensures r.Some? <==> rest.Some?
    ensures r.Some? ==> r.value == [v] + rest.value
  {
    match rest
    case None => None
    case Some(gs) => Some([v] + gs)
  }

  function Zeros(k: nat): (z: seq<u16>)
    ensures |z| == k
  {
    seq(k, _ => 0)
  }

  predicate GapAt(t: seq<byte>, p: nat) {
    p + 2 <= |t| && t[p] == COLON && t[p + 1] == COLON
  }

  function LeftOf(t: seq<byte>, p: nat): Option<seq<u16>>
    requires GapAt(t, p)
  {
    if p == 0 then Some([]) else ListOf(t[..p], false)
  }

  function RightOf(t: seq<byte>, p: nat): Option<seq<u16>>
    requires GapAt(t, p)
  {
    if p + 2 == |t| then Some([]) else ListOf(t[p + 2..], true)
  }

  /** The groups of a text whose "::" is at `p`; the gap stands for at least one zero group. */
  function Around(t: seq<byte>, p: nat): Option<seq<u16>>
    requires GapAt(t, p)
  {
    match (LeftOf(t, p), RightOf(t, p))
    case (Some(l), Some(r)) => if |l| + |r| <= 7 then Some(l + Zeros(8 - |l| - |r|) + r) else None
    case _ => None
  }

  /** The text denotes these eight groups: all written out, or compressed at some "::". */
  ghost predicate Denotes(t: seq<byte>, gs: seq<u16>) {
    || (|gs| == 8 && ListOf(t, true) == Some(gs))
    || (exists p: nat :: GapAt(t, p) && Around(t, p) == Some(gs))
  }

  /** The address of eight groups. */
  function GroupsAddr(gs: seq<u16>): Addr6
    requires |gs| == 8
  {
    Addr6(Word4(gs[0], gs[1], gs[2], gs[3]), Word4(gs[4], gs[5], gs[6], gs[7]))
  }

  function Word4(a: u16, b: u16, c: u16, d: u16): u64 {
    (a as int) * 0x1_0000_0000_0000 + (b as int) * 0x1_0000_0000 + (c as int) * 0x1_0000 + d
  }

  // ---- a left-to-right reading, which is what the parser follows ----

  /** The groups read, with the zeros slid into the gap. */
  function Finish(g: seq<u16>, gap: int): (r: Option<seq<u16>>)
    requires gap <= |g|
    ensures r.Some? ==> |r.value| == 8
  {
    if gap < 0 then if |g| == 8 then Some(g) else None
    else if |g| >= 8 then None
    else Some(g[..gap] + Zeros(8 - |g|) + g[gap..])
  }

  /** What remains to be read after the groups `g`, the first gap (if any) being after `gap` of them. */
  function Rest(t: seq<byte>, g: seq<u16>, gap: int): (r: Option<seq<u16>>)
    requires t != [] && gap <= |g|
    ensures r.Some? ==> |r.value| == 8
    decreases |t|, 1
  {
    if Quad(t).Some? then
      if |g| > 6 then None
      else Finish(g + [Quad(t).value / 0x1_0000, Quad(t).value % 0x1_0000], gap)
    else
      var c := FirstColon(t);
      if !H16(t[..c]) || |g| == 8 then None
      else AfterGroup(t[c..], g + [H16Value(t[..c])], gap)
  }

  /** What remains to be read when `u` follows a group directly: nothing, a colon, or the gap. */
  function AfterGroup(u: seq<byte>, g: seq<u16>, gap: int): (r: Option<seq<u16>>)
    requires gap <= |g|
    ensures r.Some? ==> |r.value| == 8
    decreases |u|, 0
  {
    if u == [] then Finish(g, gap)
    else if |u| == 1 then None
    else if u[1] != COLON then Rest(u[1..], g, gap)
    else if gap >= 0 then None
    else if |u| == 2 then Finish(g, |g|)
    else Rest(u[2..], g, |g|)
  }

  function Parse(t: seq<byte>): (r: Option<seq<u16>>)
    ensures r.Some? ==> |r.value| == 8
  {
    if |t| < 2 then None
    else if t[0] != COLON then Rest(t, [], -1)
    else if t[1] != COLON then None
    else if |t| == 2 then Some(Zeros(8))
    else Rest(t[2..], [], 0)
  }

  lemma QuadHasNoColon(t: seq<byte>)
    requires Quad(t).Some?
    ensures FirstColon(t) == |t| && !H16(t) && t != []
  {
    var parts := Split(t);
    forall k | 0 <= k < |parts| ensures COLON !in parts[k] {
      assert DecOctet(parts[k]) by {
        if k == 0 { } else if k == 1 { } else if k == 2 { } else { assert k == 3; }
      }
    }
    SplitHasNoColon(t, parts);
    SplitJoins(t);
    assert t[|parts[0]|] == DOT;
  }

  lemma {:induction false} SplitHasNoColon(t: seq<byte>, parts: seq<seq<byte>>)
    requires parts == Split(t)
    requires forall k :: 0 <= k < |parts| ==> COLON !in parts[k]
    ensures COLON !in t
  {
    if t != [] {
      var rest := Split(t[1..]);
      forall k | 0 <= k < |rest| ensures COLON !in rest[k] {
        if t[0] == DOT {
          assert rest[k] == parts[k + 1];
        } else if k == 0 {
          assert parts[0] == [t[0]] + rest[0];
        } else {
          assert rest[k] == parts[k];
        }
      }
      SplitHasNoColon(t[1..], rest);
      if t[0] != DOT {
        assert parts[0][0] == t[0];
      }
    }
  }

  lemma EmptyList(quad: bool)
    ensures ListOf([], quad) == None
  {
    assert Quad([]) == None;
  }

  /** The groups `g` continued by a list. */
  function Append(g: seq<u16>, list: Option<seq<u16>>, gap: int): Option<seq<u16>>
    requires gap <= |g|
  {
    match list
    case None => None
    case Some(r) => Finish(g + r, gap)
  }

  lemma AppendCons(g: seq<u16>, v: u16, list: Option<seq<u16>>, gap: int)
    requires gap <= |g|
    ensures Append(g, Cons(v, list), gap) == Append(g + [v], list, gap)
  {
    if list.Some? {
      assert g + ([v] + list.value) == g + [v] + list.value;
    }
  }

  /** The first piece is an h16 that a single colon and then `u` follow. */
  ghost predicate Piece(t: seq<byte>, v: u16, u: seq<byte>) {
    var c := FirstColon(t);
    c < |t| && H16(t[..c]) && v == H16Value(t[..c]) && u == t[c + 1..]
  }

  lemma ListOfPiece(t: seq<byte>, v: u16, u: seq<byte>, quad: bool)
    requires Piece(t, v, u)
    ensures ListOf(t, quad) == Cons(v, ListOf(u, quad)) && Quad(t) == None
  {
    if Quad(t).Some? {
      QuadHasNoColon(t);
    }
  }

  lemma RestOfPiece(t: seq<byte>, v: u16, u: seq<byte>, g: seq<u16>, gap: int)
    requires Piece(t, v, u) && u != [] && u[0] != COLON && gap <= |g|
    ensures Rest(t, g, gap) == if |g| == 8 then None else Rest(u, g + [v], gap)
  {
    ListOfPiece(t, v, u, true);
  }

  /** After the gap only a plain list may follow. */
  lemma {:induction false} RestAfterGap(t: seq<byte>, g: seq<u16>, gap: nat)
    requires t != [] && gap <= |g| <= 8
    ensures Rest(t, g, gap) == Append(g, ListOf(t, true), gap)
    decreases |t|
  {
    var c := FirstColon(t);
    if Quad(t).Some? {
      QuadHasNoColon(t);
    } else if c == |t| {
      assert t[..c] == t;
    } else if H16(t[..c]) {
      var v, u := H16Value(t[..c]), t[c + 1..];
      ListOfPiece(t, v, u, true);
      if u == [] {
        EmptyList(true);
      } else if u[0] != COLON {
        RestOfPiece(t, v, u, g, gap);
        if |g| < 8 {
          RestAfterGap(u, g + [v], gap);
        }
        AppendCons(g, v, ListOf(u, true), gap);
      }
    }
  }

  /** The position of the first "::", or the length when there is none. */
  function FirstGap(t: seq<byte>): (p: nat)
    ensures p <= |t|
    ensures p < |t| ==> GapAt(t, p)
    ensures forall q :: 0 <= q < p ==> !GapAt(t, q)
  {
    if t == [] || GapAt(t, 0) then 0
    else
      var p := FirstGap(t[1..]);
      assert forall q :: 1 <= q < p + 1 ==> GapAt(t, q) == GapAt(t[1..], q - 1);
      p + 1
  }

  lemma FirstGapIs(t: seq<byte>, p: nat)
    requires p <= |t| && (p < |t| ==> GapAt(t, p)) && forall q :: 0 <= q < p ==> !GapAt(t, q)
    ensures FirstGap(t) == p
  {
  }

  /** The groups `g`, then the pieces left and right of the gap. */
  function AppendGap(g: seq<u16>, left: Option<seq<u16>>, right: Option<seq<u16>>): Option<seq<u16>> {
    match (left, right)
    case (Some(l), Some(r)) => Finish(g + l + r, |g| + |l|)
    case _ => None
  }

  lemma AppendGapCons(g: seq<u16>, v: u16, left: Option<seq<u16>>, right: Option<seq<u16>>)
    ensures AppendGap(g, Cons(v, left), right) == AppendGap(g + [v], left, right)
  {
    if left.Some? && right.Some? {
      assert g + ([v] + left.value) == g + [v] + left.value;
    }
  }

  /** `Rest` before any gap, by where the first gap is. */
  function RestSpec(t: seq<byte>, g: seq<u16>): Option<seq<u16>> {
    var p := FirstGap(t);
    if p == |t| then Append(g, ListOf(t, true), -1)
    else AppendGap(g, ListOf(t[..p], false), RightOf(t, p))
  }

  lemma {:induction false} RestBeforeGap(t: seq<byte>, g: seq<u16>)
    requires t != [] && |g| <= 8
    ensures Rest(t, g, -1) == RestSpec(t, g)
    decreases |t|
  {
    var c := FirstColon(t);
    if Quad(t).Some? {
      QuadHasNoColon(t);
      FirstGapIs(t, |t|);
    } else if c == |t| {
      FirstGapIs(t, |t|);
      assert t[..c] == t;
    } else if !H16(t[..c]) {
      BadFirstPiece(t, g);
    } else {
      var u := t[c + 1..];
      if u == [] {
        FirstGapIs(t, |t|);
        ListOfPiece(t, H16Value(t[..c]), u, true);
        EmptyList(true);
      } else if u[0] != COLON {
        if |g| < 8 {
          RestBeforeGap(u, g + [H16Value(t[..c])]);
        }
        PieceBeforeGap(t, H16Value(t[..c]), u, g);
      } else {
        PieceAtGap(t, g);
      }
    }
  }

  lemma BadFirstPiece(t: seq<byte>, g: seq<u16>)
    requires var c := FirstColon(t); c < |t| && !H16(t[..c])
    ensures RestSpec(t, g) == None
  {
    var c, p := FirstColon(t), FirstGap(t);
    if p < |t| {
      FirstColonIs(t[..p], c);
      assert p > c ==> t[..p][..c] == t[..c];
    }
  }

  lemma FirstColonIs(t: seq<byte>, c: nat)
    requires c <= |t| && (forall i :: 0 <= i < c ==> t[i] != COLON) && (c < |t| ==> t[c] == COLON)
    ensures FirstColon(t) == c
  {
  }

  lemma PieceBeforeGap(t: seq<byte>, v: u16, u: seq<byte>, g: seq<u16>)
    requires Piece(t, v, u) && u != [] && u[0] != COLON && |g| <= 8
    requires |g| < 8 ==> Rest(u, g + [v], -1) == RestSpec(u, g + [v])
    ensures Rest(t, g, -1) == RestSpec(t, g)
  {
    RestOfPiece(t, v, u, g, -1);
    RestSpecOfPiece(t, v, u, g);
  }

  lemma RestSpecOfPiece(t: seq<byte>, v: u16, u: seq<byte>, g: seq<u16>)
    requires Piece(t, v, u) && u != [] && u[0] != COLON
    ensures |g| <= 8 ==> RestSpec(t, g) == if |g| == 8 then None else RestSpec(u, g + [v])
  {
    GapAfterPiece(t, v, u);
    var q := FirstGap(u);
    if q == |u| {
      ListOfPiece(t, v, u, true);
      AppendCons(g, v, ListOf(u, true), -1);
    } else {
      LeftOfPiece(t, v, u, FirstGap(t), q);
      RightOfPiece(t, v, u, FirstGap(t), q);
      AppendGapCons(g, v, ListOf(u[..q], false), RightOf(u, q));
    }
  }

  lemma LeftOfPiece(t: seq<byte>, v: u16, u: seq<byte>, p: nat, q: nat)
    requires Piece(t, v, u) && q <= |u| && p == FirstColon(t) + 1 + q
    ensures ListOf(t[..p], false) == Cons(v, ListOf(u[..q], false))
  {
    PieceOfPrefix(t, v, u, q);
    ListOfPiece(t[..p], v, u[..q], false);
  }

  lemma RightOfPiece(t: seq<byte>, v: u16, u: seq<byte>, p: nat, q: nat)
    requires Piece(t, v, u) && GapAt(u, q) && p == FirstColon(t) + 1 + q
    ensures GapAt(t, p) && RightOf(t, p) == RightOf(u, q)
  {
    assert t[p + 2..] == u[q + 2..];
  }

  lemma PieceOfPrefix(t: seq<byte>, v: u16, u: seq<byte>, q: nat)
    requires Piece(t, v, u) && q <= |u|
    ensures Piece(t[..FirstColon(t) + 1 + q], v, u[..q])
  {
    var c := FirstColon(t);
    var left := t[..c + 1 + q];
    FirstColonIs(left, c);
    assert left[..c] == t[..c] && left[c + 1..] == u[..q];
  }

  lemma GapAfterPiece(t: seq<byte>, v: u16, u: seq<byte>)
    requires Piece(t, v, u) && u != [] && u[0] != COLON
    ensures FirstGap(t) == FirstColon(t) + 1 + FirstGap(u)
  {
    var c, q := FirstColon(t), FirstGap(u);
    forall i | 0 <= i < c + 1 + q ensures !GapAt(t, i) {
      if i > c {
        assert GapAt(t, i) == GapAt(u, i - c - 1);
      }
    }
    FirstGapIs(t, c + 1 + q);
  }

  /** The text's first piece is an h16 `v` right before a gap at `c`. */
  ghost predicate LastBeforeGap(t: seq<byte>, c: nat, v: u16) {
    c == FirstColon(t) && GapAt(t, c) && H16(t[..c]) && v == H16Value(t[..c])
  }

  lemma SpecAtGap(t: seq<byte>, c: nat, v: u16, g: seq<u16>)
    requires LastBeforeGap(t, c, v)
    ensures RestSpec(t, g) == AppendGap(g, Some([v]), RightOf(t, c))
  {
    FirstGapIs(t, c);
    FirstColonIs(t[..c], c);
    assert t[..c][..c] == t[..c];
  }

  lemma RestAtGap(t: seq<byte>, c: nat, v: u16, g: seq<u16>)
    requires LastBeforeGap(t, c, v) && |g| <= 8
    ensures Rest(t, g, -1) ==
            if |g| == 8 then None
            else if c + 2 == |t| then Finish(g + [v], |g| + 1)
            else Rest(t[c + 2..], g + [v], |g| + 1)
  {
    ListOfPiece(t, v, t[c + 1..], true);
    assert t[c..][2..] == t[c + 2..];
  }

  lemma PieceAtGap(t: seq<byte>, g: seq<u16>)
    requires var c := FirstColon(t); c + 1 < |t| && H16(t[..c]) && t[c + 1] == COLON
    requires |g| <= 8
    ensures Rest(t, g, -1) == RestSpec(t, g)
  {
    var c := FirstColon(t);
    var v := H16Value(t[..c]);
    SpecAtGap(t, c, v, g);
    RestAtGap(t, c, v, g);
    if c + 2 == |t| {
      assert g + [v] + [] == g + [v];
    } else if |g| < 8 {
      RestAfterGap(t[c + 2..], g + [v], |g| + 1);
    }
  }

  /** A list neither starts nor ends with a colon and holds no "::". */
  lemma {:induction false} ListHasNoGap(t: seq<byte>, quad: bool, p: nat)
    requires ListOf(t, quad).Some? && p < |t| && t[p] == COLON
    ensures 0 < p && p + 1 < |t| && t[p + 1] != COLON
  {
    var c := FirstColon(t);
    assert c <= p;
    var u := t[c + 1..];
    if u == [] {
      EmptyList(quad);
    } else if c < p {
      ListHasNoGap(u, quad, p - c - 1);
    } else if u[0] == COLON {
      ColonIsNoList(u, quad);
    }
  }

  lemma ColonIsNoList(t: seq<byte>, quad: bool)
    requires t != [] && t[0] == COLON
    ensures ListOf(t, quad) == None
  {
  }

  /** Only the first "::" can be the gap. */
  lemma OnlyFirstGap(t: seq<byte>, p: nat)
    requires GapAt(t, p) && Around(t, p).Some?
    ensures FirstGap(t) == p
  {
    forall q | 0 <= q < p ensures !GapAt(t, q) {
      if GapAt(t, q) {
        assert t[..p][q] == COLON && (q + 1 < p ==> t[..p][q + 1] == COLON);
        ListHasNoGap(t[..p], false, q);
      }
    }
    FirstGapIs(t, p);
  }

  lemma FinishAround(l: seq<u16>, r: seq<u16>)
    ensures Finish([] + l + r, |l|) == if |l| + |r| <= 7 then Some(l + Zeros(8 - |l| - |r|) + r) else None
  {
    var g := [] + l + r;
    assert g[..|l|] == l && g[|l|..] == r;
  }

  lemma AppendGapIsAround(t: seq<byte>, p: nat)
    requires GapAt(t, p) && p > 0
    ensures AppendGap([], ListOf(t[..p], false), RightOf(t, p)) == Around(t, p)
  {
    var left, right := LeftOf(t, p), RightOf(t, p);
    if left.Some? && right.Some? {
      FinishAround(left.value, right.value);
    }
  }

  lemma ParseGapInside(t: seq<byte>)
    requires |t| >= 2 && FirstGap(t) < |t| && t[0] != COLON
    ensures Parse(t) == Around(t, FirstGap(t))
  {
    RestBeforeGap(t, []);
    AppendGapIsAround(t, FirstGap(t));
  }

  lemma ParseGapFirst(t: seq<byte>)
    requires |t| >= 2 && GapAt(t, 0)
    ensures Parse(t) == Around(t, 0) && FirstGap(t) == 0
  {
    FirstGapIs(t, 0);
    if |t| > 2 {
      RestAfterGap(t[2..], [], 0);
      if ListOf(t[2..], true).Some? {
        FinishAround([], ListOf(t[2..], true).value);
      }
    } else {
      assert [] + Zeros(8) + [] == Zeros(8);
    }
  }

  lemma ParseCompressed(t: seq<byte>)
    requires |t| >= 2 && FirstGap(t) < |t|
    ensures Parse(t) == Around(t, FirstGap(t))
  {
    if t[0] != COLON {
      ParseGapInside(t);
    } else if t[1] == COLON {
      ParseGapFirst(t);
    } else if LeftOf(t, FirstGap(t)).Some? {
      ListHasNoGap(t[..FirstGap(t)], false, 0);
    }
  }

  lemma ParseFull(t: seq<byte>)
    requires FirstGap(t) == |t|
    ensures Parse(t) == match ListOf(t, true) case None => None case Some(r) => if |r| == 8 then Some(r) else None
  {
    if |t| < 2 {
      EmptyList(true);
    } else if t[0] != COLON {
      RestBeforeGap(t, []);
      assert forall r: seq<u16> {:trigger [] + r} :: [] + r == r;
    } else {
      assert !GapAt(t, 0);
      ColonIsNoList(t, true);
    }
  }

  /** The left-to-right reading is exactly the denotation; in particular no text denotes two addresses. */
  lemma ParseIsDenotes(t: seq<byte>, gs: seq<u16>)
    ensures Parse(t) == Some(gs) <==> Denotes(t, gs)
  {
    var p := FirstGap(t);
    if p == |t| {
      ParseFull(t);
    } else {
      ParseCompressed(t);
      if ListOf(t, true).Some? {
        ListHasNoGap(t, true, p);
      }
      forall q: nat | GapAt(t, q) && Around(t, q) == Some(gs) ensures q == p {
        OnlyFirstGap(t, q);
      }
    }
  }
}
