/** What becomes of each stored entry: the address it is the answer for, if any. */
module Entries {
  import opened Words
  import opened Addr
  import opened History
  import opened Groups
  import opened Survivors
  import opened Values
  import opened Store
  import opened Layout
  import opened BuildSpec
  import opened Format
  import opened ArtifactLaws

  /** Scanning readable entries for the address of entry `j` answers with its value. */
  lemma ScanAt(a: seq<nat>, vals: Values, j: nat)
    requires StrictlyAscending(a) && j < |a| && Readable(vals, j)
    ensures Scan(a, vals, a[j]) == Some(Get(vals, j))
  {
    FindAscending(a, a[j], j);
  }

  lemma Entry4Readable(m: Map, i: nat)
    requires Valid(m) && i < m.stats.addrs4
    ensures Readable(m.s4.vals, i)
  {
    ShapedIsReadable(m.s4.vals, m.stats.addrs4, m.valLen, m.stats.distinct, i);
  }

  lemma Entry6Readable(m: Map, i: nat)
    requires Valid(m) && i < m.stats.addrs6
    ensures Readable(m.s6.vals, i)
  {
    ShapedIsReadable(m.s6.vals, m.stats.addrs6, m.valLen, m.stats.distinct, i);
  }

  /** The 32-bit address of entry `i`. */
  ghost function Ip4At(m: Map, i: nat): (ip: u32)
    requires Valid(m) && i < m.stats.addrs4
    ensures i < |Addresses4(m.s4)| && ip == Addresses4(m.s4)[i]
  {
    StoredAscend(m);
    var a := Addresses4(m.s4);
    assert a[i] == AddressAt(Identity(GROUPS4), m.s4.idx, m.s4.suffix, 0x100, i);
    a[i]
  }

  /** The 128-bit address of entry `i`. */
  ghost function Addr6At(m: Map, i: nat): (a: Addr6)
    requires Valid(m) && i < m.stats.addrs6
    ensures i < |Addresses6(m.s6)| && Num(a) == Addresses6(m.s6)[i]
  {
    StoredAscend(m);
    var s := m.s6;
    assert Addresses6(s)[i] == AddressAt(s.prefix, s.pidx, s.suffix, 0x1_0000_0000_0000_0000, i);
    Addr6(s.prefix[GroupOf(s.pidx, i, |s.pidx| - 1)], s.suffix[i])
  }

  /** Every 32-bit entry is the answer at its own address. */
  lemma Entry4Answers(m: Map, i: nat)
    requires Valid(m) && i < m.stats.addrs4
    ensures Readable(m.s4.vals, i)
    ensures Lookup(m, AddressOf(Key4(Ip4At(m, i)))) == Some(Get(m.s4.vals, i))
  {
    StoredAscend(m);
    Entry4Readable(m, i);
    ScanAt(Addresses4(m.s4), m.s4.vals, i);
    AddressHasKey(Key4(Ip4At(m, i)));
  }

  /** A 128-bit entry is the answer for its key. */
  lemma Entry6Key(m: Map, i: nat)
    requires Valid(m) && i < m.stats.addrs6
    ensures Readable(m.s6.vals, i) && Answer(m, Key6(Addr6At(m, i))) == Some(Get(m.s6.vals, i))
  {
    StoredAscend(m);
    Entry6Readable(m, i);
    ScanAt(Addresses6(m.s6), m.s6.vals, i);
  }

  /**
   * A 128-bit entry is the answer at its own address exactly when that address is not 4-in-6: a 4-in-6 one is
   * answered from the 32-bit family, whatever the entry holds.
   */
  lemma Entry6Answers(m: Map, i: nat)
    requires Valid(m) && i < m.stats.addrs6
    ensures var a := Addr6At(m, i);
            && (KeyOf(AddressOf(Key6(a))) == Some(Key6(a)) <==> !Mapped(a))
            && Readable(m.s6.vals, i)
            && Lookup(m, AddressOf(Key6(a))) ==
               if Mapped(a) then Answer(m, Key4(a.lo % 0x1_0000_0000)) else Some(Get(m.s6.vals, i))
  {
    Entry6Key(m, i);
    AddressHasKey(Key6(Addr6At(m, i)));
  }

  /** A built Map stores no 4-in-6 address, so each of its 128-bit entries is an answer. */
  lemma BuiltEntriesAnswer(opt: Options, log: Log, epoch: i64, i: nat)
    requires LogOk(opt, log) && i < BuildMap(opt, log, epoch).stats.addrs6
    ensures var m := BuildMap(opt, log, epoch);
            && Valid(m) && !Mapped(Addr6At(m, i)) && Readable(m.s6.vals, i)
            && Lookup(m, AddressOf(Key6(Addr6At(m, i)))) == Some(Get(m.s6.vals, i))
  {
    var m := BuildMap(opt, log, epoch);
    BuildIsValid(opt, log, epoch);
    Built6Ok(opt, log);
    var w := KeptOf(log, true)[i];
    KeptWins(log, true, w);
    assert StorableAt(log, SeqOf(w));
    assert Num(Addr6At(m, i)) == Keys(KeptOf(log, true))[i];
    LessIsNumeric(Addr6At(m, i), log[SeqOf(w)].key.a);
    Entry6Answers(m, i);
  }

  /** The entries of an accepted file, likewise. */
  lemma AcceptedEntriesAnswer(crc: Checksum, d: seq<byte>, m: Map, i: nat)
    requires Open(crc, d) == Accepted(m)
    ensures Valid(m)
    ensures i < m.stats.addrs4 ==>
            Readable(m.s4.vals, i) && Lookup(m, AddressOf(Key4(Ip4At(m, i)))) == Some(Get(m.s4.vals, i))
    ensures i < m.stats.addrs6 && !Mapped(Addr6At(m, i)) ==>
            Readable(m.s6.vals, i) && Lookup(m, AddressOf(Key6(Addr6At(m, i)))) == Some(Get(m.s6.vals, i))
  {
    AcceptedIsCanonical(crc, d, m);
    if i < m.stats.addrs4 {
      Entry4Answers(m, i);
    }
    if i < m.stats.addrs6 {
      Entry6Answers(m, i);
    }
  }
}
