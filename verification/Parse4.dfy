/** addr.go, parseAddr4: the dotted quad of section 3.2.2 of RFC 3986. */
module Parse4 {
  import opened Words
  import opened Text

  const DOT: byte := 0x2E
  const ZERO: byte := 0x30

  predicate IsDigit(c: byte) { 0x30 <= c <= 0x39 }

  predicate AllDigits(s: seq<byte>) {
    forall i :: 0 <= i < |s| ==> IsDigit(s[i])
  }

  function Decimal(s: seq<byte>): nat
    requires AllDigits(s)
  {
    if s == [] then 0 else Decimal(s[..|s| - 1]) * 10 + (s[|s| - 1] - 0x30)
  }

  /** dec-octet, alternative by alternative as section 3.2.2 of RFC 3986 lists them. */
  predicate DecOctet(s: seq<byte>) {
    AllDigits(s) &&
    (|| |s| == 1                                                    // DIGIT
     || (|s| == 2 && 0x31 <= s[0])                                  // %x31-39 DIGIT
     || (|s| == 3 && s[0] == 0x31)                                  // "1" 2DIGIT
     || (|s| == 3 && s[0] == 0x32 && s[1] <= 0x34)                  // "2" %x30-34 DIGIT
     || (|s| == 3 && s[0] == 0x32 && s[1] == 0x35 && s[2] <= 0x35)) // "25" %x30-35
  }

  /** The grammar's octets are the numbers up to 255 without a leading zero. */
  lemma DecOctetMeaning(s: seq<byte>)
    requires AllDigits(s)
    ensures DecOctet(s) <==> 1 <= |s| <= 3 && (|s| > 1 ==> s[0] != ZERO) && Decimal(s) <= 255
  {
    if |s| == 1 {
      assert s[..0] == [];
    } else if |s| == 2 {
      DecimalOfTwo(s);
    } else if |s| == 3 {
      assert s[..2][0] == s[0] && s[..2][1] == s[1];
      DecimalOfTwo(s[..2]);
    }
  }

  lemma DecimalOfTwo(s: seq<byte>)
    requires |s| == 2 && AllDigits(s)
    ensures Decimal(s) == (s[0] - 0x30) * 10 + (s[1] - 0x30)
  {
    assert s[..1][..0] == [];
    assert Decimal(s[..1]) == s[0] - 0x30;
  }

  lemma {:induction false} DecimalMonotone(s: seq<byte>, k: nat)
    requires k <= |s| && AllDigits(s)
    ensures Decimal(s[..k]) <= Decimal(s)
  {
    if k < |s| {
      var init := s[..|s| - 1];
      DecimalMonotone(init, k);
      assert init[..k] == s[..k];
    } else {
      assert s[..k] == s;
    }
  }

  /** The maximal runs between dots; there is always at least one. */
  function Split(b: seq<byte>): (parts: seq<seq<byte>>)
    ensures |parts| >= 1
  {
    if b == [] then [[]]
    else
      var rest := Split(b[1..]);
      if b[0] == DOT then [[]] + rest else [[b[0]] + rest[0]] + rest[1..]
  }

  /** A dot-free prefix joins the first run of what follows it. */
  lemma {:induction false} SplitPrefix(x: seq<byte>, y: seq<byte>)
    requires DOT !in x
    ensures Split(x + y) == [x + Split(y)[0]] + Split(y)[1..]
  {
    if x == [] {
      assert x + y == y;
      assert x + Split(y)[0] == Split(y)[0];
    } else {
      assert (x + y)[1..] == x[1..] + y;
      SplitPrefix(x[1..], y);
      assert x == [x[0]] + x[1..];
      assert [x[0]] + (x[1..] + Split(y)[0]) == x + Split(y)[0];
    }
  }

  function QuadNumber(p: seq<byte>, q: seq<byte>, r: seq<byte>, s: seq<byte>): (ip: u32)
    requires DecOctet(p) && DecOctet(q) && DecOctet(r) && DecOctet(s)
  {
    DecOctetMeaning(p);
    DecOctetMeaning(q);
    DecOctetMeaning(r);
    DecOctetMeaning(s);
    ((Decimal(p) * 0x100 + Decimal(q)) * 0x100 + Decimal(r)) * 0x100 + Decimal(s)
  }

  /** The number a dotted quad denotes. */
  function Quad(b: seq<byte>): (r: Option<u32>) {
    var t := Split(b);
    if |t| == 4 && DecOctet(t[0]) && DecOctet(t[1]) && DecOctet(t[2]) && DecOctet(t[3])
    then Some(QuadNumber(t[0], t[1], t[2], t[3]))
    else None
  }

  /** IPv4address = dec-octet "." dec-octet "." dec-octet "." dec-octet, with the number it denotes. */
  ghost predicate Ipv4Address(b: seq<byte>, ip: u32) {
    exists p, q, r, s ::
      && DecOctet(p) && DecOctet(q) && DecOctet(r) && DecOctet(s)
      && b == p + [DOT] + (q + [DOT] + (r + [DOT] + s))
      && ip == QuadNumber(p, q, r, s)
  }

  lemma {:induction false} SplitJoins(b: seq<byte>)
    ensures |Split(b)| == 1 ==> b == Split(b)[0]
    ensures |Split(b)| > 1 ==>
              var n := |Split(b)[0]|;
              n < |b| && b[..n] == Split(b)[0] && b[n] == DOT && Split(b[n + 1..]) == Split(b)[1..]
  {
    if b != [] && b[0] != DOT {
      SplitJoins(b[1..]);
      var n := |Split(b[1..])[0]|;
      assert Split(b)[0] == [b[0]] + Split(b[1..])[0];
      assert b == [b[0]] + b[1..];
      if |Split(b)| > 1 {
        assert b[n + 2..] == b[1..][n + 1..];
        assert b[..n + 1] == [b[0]] + b[1..][..n];
      }
    }
  }

  lemma SplitCons(b: seq<byte>)
    requires |Split(b)| > 1
    ensures exists y :: b == Split(b)[0] + [DOT] + y && Split(y) == Split(b)[1..]
  {
    SplitJoins(b);
    var n := |Split(b)[0]|;
    assert b == Split(b)[0] + [DOT] + b[n + 1..];
  }

  /** `Quad` reads exactly the grammar: it accepts what the grammar derives and returns what it denotes. */
  lemma QuadIsIpv4Address(b: seq<byte>, ip: u32)
    ensures Quad(b) == Some(ip) <==> Ipv4Address(b, ip)
  {
    if Quad(b) == Some(ip) {
      QuadDerives(b, ip);
    }
    if Ipv4Address(b, ip) {
      var p, q, r, s :|
        && DecOctet(p) && DecOctet(q) && DecOctet(r) && DecOctet(s)
        && b == p + [DOT] + (q + [DOT] + (r + [DOT] + s))
        && ip == QuadNumber(p, q, r, s);
      SplitFour(p, q, r, s);
    }
  }

  lemma SplitFour(p: seq<byte>, q: seq<byte>, r: seq<byte>, s: seq<byte>)
    requires DecOctet(p) && DecOctet(q) && DecOctet(r) && DecOctet(s)
    ensures Split(p + [DOT] + (q + [DOT] + (r + [DOT] + s))) == [p, q, r, s]
  {
    SplitOctet(s);
    SplitDotted(r, s);
    SplitDotted(q, r + [DOT] + s);
    SplitDotted(p, q + [DOT] + (r + [DOT] + s));
  }

  lemma QuadDerives(b: seq<byte>, ip: u32)
    requires Quad(b) == Some(ip)
    ensures Ipv4Address(b, ip)
  {
    var t := Split(b);
    SplitCons(b);
    var b1 :| b == t[0] + [DOT] + b1 && Split(b1) == t[1..];
    SplitCons(b1);
    var b2 :| b1 == t[1] + [DOT] + b2 && Split(b2) == t[2..];
    SplitCons(b2);
    var b3 :| b2 == t[2] + [DOT] + b3 && Split(b3) == t[3..];
    SplitJoins(b3);
  }

  lemma SplitOctet(x: seq<byte>)
    requires DecOctet(x)
    ensures Split(x) == [x]
  {
    SplitPrefix(x, []);
    assert x + [] == x;
  }

  lemma SplitDotted(x: seq<byte>, y: seq<byte>)
    requires DecOctet(x)
    ensures Split(x + [DOT] + y) == [x] + Split(y)
  {
    SplitPrefix(x, [DOT] + y);
    assert x + [DOT] + y == x + ([DOT] + y);
    assert ([DOT] + y)[1..] == y;
    assert x + [] == x;
  }

  // ---- the dotted quad of a number ----

  lemma DecimalCharIs(n: nat)
    requires n < 10
    ensures DecimalChar(n) == 0x30 + n
  {
  }

  /** What a number is written as reads as the number, without a leading zero. */
  lemma {:induction false} DecimalReads(v: nat)
    ensures var s := DecimalText(v); AllDigits(s) && Decimal(s) == v && (s[0] == ZERO ==> v == 0 && |s| == 1)
  {
    DecimalCharIs(v % 10);
    if v < 10 {
      assert DecimalText(v)[..0] == [];
    } else {
      DecimalReads(v / 10);
      var s, init := DecimalText(v), DecimalText(v / 10);
      assert s[..|s| - 1] == init && s[0] == init[0];
    }
  }

  /** Digits without a leading zero are written as their number is: no other such text has that number. */
  lemma {:induction false} DecimalIsWritten(s: seq<byte>)
    requires AllDigits(s) && s != [] && (|s| > 1 ==> s[0] != ZERO)
    ensures s == DecimalText(Decimal(s)) && (|s| > 1 ==> Decimal(s) >= 10)
  {
    var n := |s| - 1;
    var d := s[n] as int - 0x30;
    DecimalCharIs(d);
    assert s == s[..n] + [s[n]];
    if n == 0 {
      assert Decimal(s[..0]) == 0;
    } else {
      DecimalIsWritten(s[..n]);
      FirstDigit(s[..n]);
      assert Decimal(s) / 10 == Decimal(s[..n]) && Decimal(s) % 10 == d;
    }
  }

  lemma FirstDigit(s: seq<byte>)
    requires AllDigits(s) && s != [] && s[0] != ZERO
    ensures Decimal(s) >= 1
  {
    DecimalMonotone(s, 1);
    assert s[..1][..0] == [];
    assert Decimal(s[..1]) == s[0] as int - 0x30;
  }

  lemma ShortText(v: nat)
    requires v < 256
    ensures |DecimalText(v)| <= 3
  {
    assert |DecimalText(v / 10 / 10)| == 1;
  }

  lemma OctetReads(v: nat)
    requires v < 256
    ensures OctetOf(DecimalText(v), v)
  {
    DecimalReads(v);
    ShortText(v);
    DecOctetMeaning(DecimalText(v));
  }

  lemma OctetIsWritten(s: seq<byte>, v: nat)
    requires DecOctet(s) && v == Decimal(s)
    ensures v < 256 && s == DecimalText(v)
  {
    DecOctetMeaning(s);
    DecimalIsWritten(s);
  }

  lemma BytesOfNumber(ip: u32)
    ensures ((ip / 0x100_0000 * 0x100 + ip / 0x1_0000 % 0x100) * 0x100 + ip / 0x100 % 0x100) * 0x100 + ip % 0x100 == ip
  {
    var x: nat := ip;
    var y := x / 0x100;
    assert x / 0x1_0000 == y / 0x100 && x / 0x100_0000 == y / 0x100 / 0x100;
  }

  /** The number of four octets. */
  predicate IsNumber(ip: u32, a: byte, b: byte, c: byte, d: byte) {
    ip == ((a as int * 0x100 + b) * 0x100 + c) * 0x100 + d
  }

  lemma NumberOfBytes(ip: u32, a: byte, b: byte, c: byte, d: byte)
    requires IsNumber(ip, a, b, c, d)
    ensures ip / 0x100_0000 == a && ip / 0x1_0000 % 0x100 == b && ip / 0x100 % 0x100 == c && ip % 0x100 == d
  {
    var x: nat := a as int * 0x100 + b;
    var y: nat := x * 0x100 + c;
    assert (y * 0x100 + d) / 0x100 == y && y / 0x100 == x && x / 0x100 == a;
  }

  /** The parser's number for a text is `ip` exactly when the text is the dotted quad of `ip`. */
  lemma QuadIsDotted(b: seq<byte>, ip: u32)
    ensures Quad(b) == Some(ip) <==> b == Dotted(ip)
  {
    if b == Dotted(ip) {
      DottedReads(ip);
    }
    if Quad(b) == Some(ip) {
      QuadIsIpv4Address(b, ip);
      QuadIsWritten(b, ip);
    }
  }

  /** Four octets with dots between. */
  function Joined(p: seq<byte>, q: seq<byte>, r: seq<byte>, s: seq<byte>): seq<byte> {
    p + [DOT] + (q + [DOT] + (r + [DOT] + s))
  }

  /** The dotted quad of four octets' number is those octets written. */
  lemma DottedJoins(ip: u32, a: byte, b: byte, c: byte, d: byte)
    requires IsNumber(ip, a, b, c, d)
    ensures Dotted(ip) == Joined(DecimalText(a), DecimalText(b), DecimalText(c), DecimalText(d))
  {
    NumberOfBytes(ip, a, b, c, d);
  }

  lemma QuadOfFour(p: seq<byte>, q: seq<byte>, r: seq<byte>, s: seq<byte>)
    requires DecOctet(p) && DecOctet(q) && DecOctet(r) && DecOctet(s)
    ensures Quad(Joined(p, q, r, s)) == Some(QuadNumber(p, q, r, s))
  {
    SplitFour(p, q, r, s);
  }

  /** An octet with its value. */
  ghost predicate OctetOf(s: seq<byte>, v: nat) {
    DecOctet(s) && Decimal(s) == v
  }

  lemma QuadNumberIs(p: seq<byte>, q: seq<byte>, r: seq<byte>, s: seq<byte>, ip: u32, a: byte, b: byte, c: byte,
                     d: byte)
    requires OctetOf(p, a) && OctetOf(q, b) && OctetOf(r, c) && OctetOf(s, d) && IsNumber(ip, a, b, c, d)
    ensures QuadNumber(p, q, r, s) == ip
  {
  }

  lemma NumberOfOctets(p: seq<byte>, q: seq<byte>, r: seq<byte>, s: seq<byte>, ip: u32)
    requires DecOctet(p) && DecOctet(q) && DecOctet(r) && DecOctet(s) && QuadNumber(p, q, r, s) == ip
    ensures Quad(Joined(p, q, r, s)) == Some(ip)
  {
    QuadOfFour(p, q, r, s);
  }

  lemma JoinedReads(ip: u32, a: byte, b: byte, c: byte, d: byte)
    requires IsNumber(ip, a, b, c, d)
    ensures Quad(Joined(DecimalText(a), DecimalText(b), DecimalText(c), DecimalText(d))) == Some(ip)
  {
    OctetReads(a);
    OctetReads(b);
    OctetReads(c);
    OctetReads(d);
    QuadNumberIs(DecimalText(a), DecimalText(b), DecimalText(c), DecimalText(d), ip, a, b, c, d);
    NumberOfOctets(DecimalText(a), DecimalText(b), DecimalText(c), DecimalText(d), ip);
  }

  lemma DottedReads(ip: u32)
    ensures Quad(Dotted(ip)) == Some(ip)
  {
    BytesOfNumber(ip);
    DottedJoins(ip, ip / 0x100_0000, ip / 0x1_0000 % 0x100, ip / 0x100 % 0x100, ip % 0x100);
    JoinedReads(ip, ip / 0x100_0000, ip / 0x1_0000 % 0x100, ip / 0x100 % 0x100, ip % 0x100);
  }

  lemma FourAreDotted(p: seq<byte>, q: seq<byte>, r: seq<byte>, s: seq<byte>, ip: u32)
    requires DecOctet(p) && DecOctet(q) && DecOctet(r) && DecOctet(s) && ip == QuadNumber(p, q, r, s)
    ensures Joined(p, q, r, s) == Dotted(ip)
  {
    OctetIsWritten(p, Decimal(p));
    OctetIsWritten(q, Decimal(q));
    OctetIsWritten(r, Decimal(r));
    OctetIsWritten(s, Decimal(s));
    DottedJoins(ip, Decimal(p), Decimal(q), Decimal(r), Decimal(s));
  }

  lemma QuadIsWritten(b: seq<byte>, ip: u32)
    requires Ipv4Address(b, ip)
    ensures b == Dotted(ip)
  {
    var p, q, r, s :|
      && DecOctet(p) && DecOctet(q) && DecOctet(r) && DecOctet(s)
      && b == p + [DOT] + (q + [DOT] + (r + [DOT] + s))
      && ip == QuadNumber(p, q, r, s);
    FourAreDotted(p, q, r, s, ip);
  }

  /** A text that is no quad is no number's dotted quad, and one that is a quad is its number's. */
  lemma QuadIsOnlyDotted(b: seq<byte>)
    ensures Quad(b).Some? ==> b == Dotted(Quad(b).value)
    ensures Quad(b).None? ==> forall n: u32 :: b != Dotted(n)
  {
    if Quad(b).Some? {
      QuadIsDotted(b, Quad(b).value);
    }
    forall n: u32 | Quad(b).None? ensures b != Dotted(n) {
      QuadIsDotted(b, n);
    }
  }

  /** A run that starts with the digits `d` and then something other than a digit or a dot is no octet. */
  lemma StuckRun(d: seq<byte>, y: seq<byte>)
    requires AllDigits(d) && y != [] && !IsDigit(y[0]) && y[0] != DOT
    ensures !DecOctet(Split(d + y)[0])
  {
    SplitPrefix(d, y);
    assert Split(d + y)[0][|d|] == y[0];
  }

  /** A run of digits that is no octet does not become one by going on. */
  lemma BadRun(d: seq<byte>, y: seq<byte>)
    requires AllDigits(d)
    requires |d| > 3 || Decimal(d) > 255 || (|d| > 1 && d[0] == ZERO)
    ensures !DecOctet(Split(d + y)[0])
  {
    SplitPrefix(d, y);
    var run := Split(d + y)[0];
    if AllDigits(run) {
      DecOctetMeaning(run);
      DecimalMonotone(run, |d|);
      assert run[..|d|] == d;
    }
  }

  predicate AllOctets(done: seq<seq<byte>>) {
    forall k :: 0 <= k < |done| ==> DecOctet(done[k])
  }

  function Fold(done: seq<seq<byte>>): nat
    requires AllOctets(done)
  {
    if done == [] then 0
    else
      var n := |done| - 1;
      assert DecOctet(done[n]);
      Fold(done[..n]) * 0x100 + Decimal(done[n])
  }

  /** The text read so far is the octets `done`, the last of them possibly going on into `rest`. */
  ghost predicate Scanned(b: seq<byte>, done: seq<seq<byte>>, rest: seq<byte>) {
    && AllOctets(done) && |done| <= 4
    && (rest != [] && done != [] ==> !IsDigit(rest[0]))
    && Split(b) == if done == [] then Split(rest)
                   else done[..|done| - 1] + Split(done[|done| - 1] + rest)
  }

  /** A separating dot ends the last octet. */
  lemma DotEndsOctet(b: seq<byte>, done: seq<seq<byte>>, rest: seq<byte>)
    requires Scanned(b, done, rest) && done != [] && rest != [] && rest[0] == DOT
    ensures Split(b) == done + Split(rest[1..])
  {
    var last := done[|done| - 1];
    assert DecOctet(last);
    SplitDotted(last, rest[1..]);
    assert last + rest == last + [DOT] + rest[1..];
    Rejoined(done, Split(rest[1..]));
  }

  lemma Rejoined(done: seq<seq<byte>>, more: seq<seq<byte>>)
    requires done != []
    ensures done[..|done| - 1] + ([done[|done| - 1]] + more) == done + more
  {
  }

  /** Anything but a dot after an octet spoils it. */
  lemma NoDot(b: seq<byte>, done: seq<seq<byte>>, rest: seq<byte>)
    requires Scanned(b, done, rest) && done != [] && rest != [] && rest[0] != DOT
    ensures Quad(b) == None
  {
    var n := |done| - 1;
    assert DecOctet(done[n]);
    StuckRun(done[n], rest);
    assert Split(b)[n] == Split(done[n] + rest)[0];
  }

  /** A fifth octet, or anything but a dot after an octet, is no quad. */
  lemma TooMuch(b: seq<byte>, done: seq<seq<byte>>, rest: seq<byte>)
    requires Scanned(b, done, rest) && done != [] && rest != [] && (|done| == 4 || rest[0] != DOT)
    ensures Quad(b) == None
  {
    if rest[0] == DOT {
      DotEndsOctet(b, done, rest);
    } else {
      NoDot(b, done, rest);
    }
  }

  lemma BadOctet(b: seq<byte>, done: seq<seq<byte>>, rest: seq<byte>)
    requires |done| < 4 && Split(b) == done + Split(rest) && !DecOctet(Split(rest)[0])
    ensures Quad(b) == None
  {
    assert Split(b)[|done|] == Split(rest)[0];
  }

  /** At the end of the text the octets read are all there is. */
  lemma QuadDone(b: seq<byte>, done: seq<seq<byte>>)
    requires Scanned(b, done, [])
    ensures Quad(b) == if |done| == 4 then Some(Fold(done)) else None
  {
    if done != [] {
      var n := |done| - 1;
      assert DecOctet(done[n]);
      SplitOctet(done[n]);
      assert done[n] + [] == done[n];
      assert Split(b) == done;
      if |done| == 4 {
        FoldOfFour(done);
      }
    }
  }

  lemma FoldOfFour(d: seq<seq<byte>>)
    requires |d| == 4 && AllOctets(d)
    ensures DecOctet(d[0]) && DecOctet(d[1]) && DecOctet(d[2]) && DecOctet(d[3])
    ensures Fold(d) == QuadNumber(d[0], d[1], d[2], d[3])
  {
    assert d[..3][..2] == d[..2] && d[..2][..1] == d[..1] && d[..1][..0] == [];
    assert Fold(d[..1]) == Decimal(d[0]);
    assert Fold(d[..2]) == Fold(d[..1]) * 0x100 + Decimal(d[1]);
    assert Fold(d[..3]) == Fold(d[..2]) * 0x100 + Decimal(d[2]);
  }

  /** A complete octet joins the ones before it. */
  lemma OctetDone(b: seq<byte>, done: seq<seq<byte>>, d: seq<byte>, rest: seq<byte>)
    requires AllOctets(done) && |done| < 4 && DecOctet(d) && Split(b) == done + Split(d + rest)
    requires rest != [] ==> !IsDigit(rest[0])
    ensures Scanned(b, done + [d], rest)
    ensures Fold(done + [d]) == Fold(done) * 0x100 + Decimal(d)
  {
    assert (done + [d])[..|done|] == done;
  }

  lemma CutAt(b: seq<byte>, lo: nat, mid: nat)
    requires lo <= mid <= |b|
    ensures b[lo..] == b[lo..mid] + b[mid..]
  {
  }

  lemma BadDigits(b: seq<byte>, start: nat, end: nat)
    requires start <= end <= |b| && AllDigits(b[start..end]) && (end - start > 3 || Decimal(b[start..end]) > 255)
    ensures !DecOctet(Split(b[start..])[0])
  {
    BadRun(b[start..end], b[end..]);
    CutAt(b, start, end);
  }

  /** One digit more. */
  lemma DecimalPush(b: seq<byte>, start: nat, i: nat)
    requires start <= i < |b| && AllDigits(b[start..i]) && IsDigit(b[i])
    ensures AllDigits(b[start..i + 1])
    ensures Decimal(b[start..i + 1]) == Decimal(b[start..i]) * 10 + (b[i] as int - 0x30)
  {
    assert b[start..i + 1] == b[start..i] + [b[i]];
    assert b[start..i + 1][..i - start] == b[start..i];
  }

  /** The inner digit loop: one maximal run of digits from `start`, or `!ok` if it cannot be an octet. */
  method ScanOctet(b: seq<byte>, start: nat) returns (v: nat, i: nat, ok: bool)
    requires start <= |b|
    ensures ok ==> start < i <= |b| && DecOctet(b[start..i]) && v == Decimal(b[start..i])
    ensures ok && i < |b| ==> !IsDigit(b[i])
    ensures !ok ==> !DecOctet(Split(b[start..])[0])
  {
    var digits: nat := 0;
    v, i := 0, start;
    while i < |b| && IsDigit(b[i])
      invariant start <= i <= |b| && digits == i - start <= 3
      invariant AllDigits(b[start..i]) && v == Decimal(b[start..i]) <= 255
    {
      DecimalPush(b, start, i);
      v := v * 10 + (b[i] as int - 0x30);
      digits := digits + 1;
      if digits > 3 || v > 255 {
        BadDigits(b, start, i + 1);
        return v, i, false;
      }
      i := i + 1;
    }
    CutAt(b, start, i);
    if digits == 0 || (digits > 1 && b[start] == ZERO) {
      NotAnOctet(b[start..i], b[i..]);
      return v, i, false;
    }
    DecOctetMeaning(b[start..i]);
    ok := true;
  }

  /** One round of the outer loop: the separating dot, if one is due, and an octet. */
  method ScanPiece(b: seq<byte>, from: nat, octets: nat, ghost done: seq<seq<byte>>)
    returns (v: nat, i: nat, ok: bool, ghost d: seq<byte>)
    requires from < |b| && octets == |done| && Scanned(b, done, b[from..]) && (octets == 0 ==> from == 0)
    ensures !ok ==> Quad(b) == None
    ensures ok ==> from < i <= |b| && DecOctet(d) && v == Decimal(d)
    ensures ok ==> Scanned(b, done + [d], b[i..]) && Fold(done + [d]) == Fold(done) * 0x100 + v
  {
    v, i, ok, d := 0, from, false, [];
    if octets == 4 || (octets > 0 && b[i] != DOT) {
      TooMuch(b, done, b[from..]);
      return;
    }
    if octets > 0 {
      DotEndsOctet(b, done, b[i..]);
      i := i + 1;
    }
    assert Split(b) == done + Split(b[i..]);
    var start := i;
    v, i, ok := ScanOctet(b, start);
    if ok {
      d := b[start..i];
      CutAt(b, start, i);
      OctetDone(b, done, d, b[i..]);
    } else {
      BadOctet(b, done, b[start..]);
    }
  }

  method ParseAddr4(b: seq<byte>) returns (ip: u32, ok: bool)
    ensures ok <==> Quad(b).Some?
    ensures ip == if ok then Quad(b).value else 0
    ensures ok ==> b == Dotted(ip)
    ensures !ok ==> forall n: u32 :: b != Dotted(n)
  {
    QuadIsOnlyDotted(b);
    var acc: nat := 0;
    var octets := 0;
    var i := 0;
    ghost var done: seq<seq<byte>> := [];
    while i < |b|
      invariant 0 <= i <= |b| && octets == |done| && (octets == 0 ==> i == 0)
      invariant Scanned(b, done, b[i..])
      invariant acc == Fold(done)
      decreases |b| - i
    {
      var v, end, good, d := ScanPiece(b, i, octets, done);
      if !good {
        return 0, false;
      }
      acc, i := acc * 0x100 + v, end;
      done := done + [d];
      octets := octets + 1;
    }
    assert b[i..] == [];
    QuadDone(b, done);
    if octets != 4 {
      return 0, false;
    }
    return acc, true;
  }

  /** A maximal digit run that is empty or has a leading zero starts no octet. */
  lemma NotAnOctet(d: seq<byte>, y: seq<byte>)
    requires AllDigits(d) && (y != [] ==> !IsDigit(y[0]))
    requires d == [] || (|d| > 1 && d[0] == ZERO)
    ensures !DecOctet(Split(d + y)[0])
  {
    if d != [] {
      BadRun(d, y);
    } else if y != [] && y[0] != DOT {
      StuckRun(d, y);
    } else {
      assert d + y == y;
    }
  }
}
