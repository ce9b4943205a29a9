/** The stages composed: one Builder fed with calls, built, written, opened and asked. */
module Pipeline {
  import opened Words
  import opened Addr
  import opened Store
  import opened Layout
  import opened BuildSpec
  import opened Format
  import opened ArtifactLaws
  import opened EndToEnd
  import Artifact
  import B = Builder
  import Framing
  import Reader

  /** Call `i`, accepted or refused. */
  method AddCall(b: B.Builder, calls: seq<Call>, i: nat)
    requires i < |calls| && b.Valid() && !b.built && b.log == AcceptedOf(b.opt, calls[..i])
    modifies b
    ensures b.Valid() && !b.built && b.log == AcceptedOf(b.opt, calls[..i + 1])
  {
    AcceptedNext(b.opt, calls, i);
    b.CountIsLength();
    var ok := b.Add(calls[i].addr, calls[i].val);
  }

  /** Every call in turn; the Builder ends with exactly the accepted ones in its log. */
  method AddAll(b: B.Builder, calls: seq<Call>)
    requires b.Valid() && !b.built && b.log == []
    modifies b
    ensures b.Valid() && !b.built && b.log == AcceptedOf(b.opt, calls)
  {
    var i := 0;
    while i < |calls|
      invariant 0 <= i <= |calls| && b.Valid() && !b.built
      invariant b.log == AcceptedOf(b.opt, calls[..i])
    {
      AddCall(b, calls, i);
      i := i + 1;
    }
    assert calls[..|calls|] == calls;
  }

  /** Builds the calls and writes the Map out; what is written can be opened. */
  method Publish(crc: Checksum, opt: Options, calls: seq<Call>, epoch: i64) returns (d: seq<byte>)
    requires OptionsOk(opt)
    ensures LogOk(opt, AcceptedOf(opt, calls)) && |d| <= MAX_I64
    ensures var built := BuildMap(opt, AcceptedOf(opt, calls), epoch); Framing.Geometry(built) && d == Write(crc, built)
  {
    var b := new B.Builder(opt);
    AddAll(b, calls);
    var built := b.Build(epoch);
    BuildIsShaped(opt, AcceptedOf(opt, calls), epoch);
    WrittenFits(crc, built);
    var n: nat;
    d, n := Artifact.WriteTo(crc, built);
  }

  /**
   * From calls to an answer: each stage meets what the next one requires, the emitted bytes open, and the reopened
   * Map answers `addr` as the last accepted Add for it says.
   */
  method Run(crc: Checksum, opt: Options, calls: seq<Call>, epoch: i64, addr: Address)
    returns (d: seq<byte>, m: Map, r: Option<Value>)
    requires OptionsOk(opt)
    ensures Open(crc, d) == Accepted(m) && m.epoch == epoch && m.valLen == opt.valLen
    ensures Framing.Geometry(m) && d == Write(crc, m)
    ensures r == LastAdded(AcceptedOf(opt, calls), addr)
  {
    d := Publish(crc, opt, calls, epoch);
    BuildWriteOpenLookup(crc, opt, AcceptedOf(opt, calls), epoch, addr);
    var o := Reader.OpenBytes(crc, d);
    m := o.m;
    AcceptedIsCanonical(crc, d, m);
    r := Store.LookupAddr(m, addr);
  }
}
