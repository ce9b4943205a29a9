/** builder.go: the Builder's fields, Add and Build, proved against the log of accepted Adds. */
module Builder {
  import opened Words
  import opened LittleEndian
  import opened Addr
  import opened History
  import opened Survivors
  import opened Store
  import opened Layout
  import opened BuildSpec
  import opened Compaction
  import opened Compile

  /** The address fields hold the log's entry words. */
  ghost predicate WordsHold(log: Log, v4: seq<u64>, v6: seq<Entry6>)
    requires Capped(log)
  {
    v4 == WordsOf(log, false) && Words6(v6) == WordsOf(log, true)
  }

  /** The intern table `t`, as bytes and as the map from values to rows. */
  ghost predicate RowsHold(t: seq<Value>, tab: seq<byte>, byVal: map<Value, u32>) {
    && tab == Concat(t)
    && |byVal| == |t| && forall v: Value :: MapsRow(byVal, t, v)
  }

  /** The intern fields: the table's rows, the id of each, and the id of each Add. */
  ghost predicate InternHolds(log: Log, tab: seq<byte>, byVal: map<Value, u32>, ids: seq<u32>) {
    && RowsHold(Table(log), tab, byVal)
    && |ids| == |log| && forall i: nat :: i < |log| ==> HoldsId(log, ids, i)
  }

  /** `byVal` has `v` exactly when the table does, and gives its row. */
  ghost predicate MapsRow(byVal: map<Value, u32>, t: seq<Value>, v: Value) {
    && (v in byVal <==> v in t)
    && (v in t ==> byVal[v] == RowOf(t, v))
  }

  ghost predicate HoldsId(log: Log, ids: seq<u32>, i: nat)
    requires i < |log|
  {
    i < |ids| && ids[i] == IdOf(log, i)
  }

  lemma PushKey4(log: Log, r: Rec, v4: seq<u64>, v6: seq<Entry6>)
    requires Capped(log + [r]) && WordsHold(log, v4, v6) && r.key.Key4?
    ensures Word(r.key.ip, |log|) < 0x1_0000_0000_0000_0000
    ensures WordsHold(log + [r], v4 + [Word(r.key.ip, |log|)], v6)
  {
    assert (log + [r])[..|log|] == log;
  }

  lemma PushKey6(log: Log, r: Rec, v4: seq<u64>, v6: seq<Entry6>)
    requires Capped(log + [r]) && WordsHold(log, v4, v6) && r.key.Key6?
    ensures WordsHold(log + [r], v4, v6 + [Entry6(r.key.a, |log|)])
  {
    assert (log + [r])[..|log|] == log;
    assert Words6(v6 + [Entry6(r.key.a, |log|)]) == Words6(v6) + [Word(Num(r.key.a), |log|)];
  }

  lemma PushValue(log: Log, r: Rec)
    ensures Concat(AllValues(log + [r])) == Concat(AllValues(log)) + r.val
  {
    assert AllValues(log + [r]) == AllValues(log) + [r.val];
    ConcatPush(AllValues(log), r.val);
  }

  lemma TablePush(log: Log, r: Rec)
    ensures var t := Table(log); Table(log + [r]) == if r.val in t then t else t + [r.val]
    ensures forall i :: 0 <= i < |log| ==> IdOf(log + [r], i) == IdOf(log, i)
  {
    assert (log + [r])[..|log|] == log;
    forall i | 0 <= i < |log| ensures IdOf(log + [r], i) == IdOf(log, i) {
      TableHolds(log, i);
      RowOfPush(Table(log), r.val, log[i].val);
    }
  }

  lemma {:induction false} RowOfNew(t: seq<Value>, v: Value)
    requires v !in t
    ensures RowOf(t + [v], v) == |t|
  {
    if t != [] {
      assert (t + [v])[1..] == t[1..] + [v];
      assert t[0] in t;
      RowOfNew(t[1..], v);
    }
  }

  /** The ids after one more Add, whose own id is `id`. */
  lemma IdsPush(log: Log, r: Rec, ids: seq<u32>, id: u32)
    requires |ids| == |log| && (forall i: nat :: i < |log| ==> HoldsId(log, ids, i))
    requires id == IdOf(log + [r], |log|)
    ensures forall i: nat :: i < |log + [r]| ==> HoldsId(log + [r], ids + [id], i)
  {
    TablePush(log, r);
    forall i: nat | i < |log + [r]| ensures HoldsId(log + [r], ids + [id], i) {
      if i < |log| {
        assert HoldsId(log, ids, i);
      }
    }
  }

  lemma IdOfLast(log: Log, r: Rec)
    ensures r.val in Table(log + [r]) && IdOf(log + [r], |log|) == RowOf(Table(log + [r]), r.val)
  {
    TableHolds(log + [r], |log|);
  }

  /** A value already in the table only gets its id recorded. */
  lemma InternKnown(log: Log, r: Rec, tab: seq<byte>, byVal: map<Value, u32>, ids: seq<u32>)
    requires InternHolds(log, tab, byVal, ids) && r.val in byVal
    ensures InternHolds(log + [r], tab, byVal, ids + [byVal[r.val]])
  {
    assert MapsRow(byVal, Table(log), r.val);
    TablePush(log, r);
    IdOfLast(log, r);
    IdsPush(log, r, ids, byVal[r.val]);
  }

  lemma MapsNewRow(byVal: map<Value, u32>, t: seq<Value>, x: Value, v: Value)
    requires |t| <= MAX_U32 && x !in t && MapsRow(byVal, t, v)
    ensures MapsRow(byVal[x := |t|], t + [x], v)
  {
    if v == x {
      RowOfNew(t, x);
    } else if v in t {
      RowOfPush(t, x, v);
    }
  }

  lemma RowsPush(t: seq<Value>, tab: seq<byte>, byVal: map<Value, u32>, x: Value)
    requires RowsHold(t, tab, byVal) && x !in byVal && |t| <= MAX_U32
    ensures RowsHold(t + [x], tab + x, byVal[x := |t|])
  {
    assert MapsRow(byVal, t, x);
    ConcatPush(t, x);
    var byVal', t' := byVal[x := |t|], t + [x];
    forall v: Value ensures MapsRow(byVal', t', v) {
      assert MapsRow(byVal, t, v);
      MapsNewRow(byVal, t, x, v);
    }
  }

  lemma NewRowOf(log: Log, r: Rec)
    requires r.val !in Table(log)
    ensures Table(log + [r]) == Table(log) + [r.val] && IdOf(log + [r], |log|) == |Table(log)|
  {
    TablePush(log, r);
    IdOfLast(log, r);
    RowOfNew(Table(log), r.val);
  }

  /** A new value becomes the next row. */
  lemma InternNew(log: Log, r: Rec, tab: seq<byte>, byVal: map<Value, u32>, ids: seq<u32>)
    requires Capped(log + [r]) && InternHolds(log, tab, byVal, ids) && r.val !in byVal
    ensures |byVal| <= MAX_U32
    ensures InternHolds(log + [r], tab + r.val, byVal[r.val := |byVal|], ids + [|byVal|])
  {
    assert MapsRow(byVal, Table(log), r.val);
    NewRowOf(log, r);
    RowsPush(Table(log), tab, byVal, r.val);
    IdsPush(log, r, ids, |byVal|);
  }

  /** What the value fields hold is what the build reads from them. */
  lemma InternedRecords(f: Fields, log: Log, byVal: map<Value, u32>)
    requires LogOk(f.opt, log) && f.opt.intern && InternHolds(log, f.tab, byVal, f.ids)
    ensures Records(f, log)
  {
    forall i: nat | i < |log| ensures RecordsAt(f, log, i) {
      assert HoldsId(log, f.ids, i);
    }
    TableIsUniform(log, f.opt.valLen);
    ConcatLength(Table(log), f.opt.valLen);
    forall id: nat ensures RowAt(f, log, id) {
      if id < |Table(log)| {
        ConcatSlot(Table(log), f.opt.valLen, id);
      }
    }
  }

  lemma DirectRecords(f: Fields, log: Log)
    requires LogOk(f.opt, log) && !f.opt.intern && f.vals == Concat(AllValues(log))
    ensures Records(f, log)
  {
    forall i: nat | i < |log| ensures RecordsAt(f, log, i) {
      ConcatSlot(AllValues(log), f.opt.valLen, i);
    }
  }

  class Builder {
    const opt: Options
    var v4: seq<u64>
    var v6: seq<Entry6>
    var n: nat
    var built: bool
    var vals: seq<byte>
    var tab: seq<byte>
    var byVal: map<Value, u32>
    var ids: seq<u32>
    ghost var log: Log

    /** The fields hold exactly the log. */
    ghost predicate Holds()
      reads this
    {
      && LogOk(opt, log) && n == |log|
      && WordsHold(log, v4, v6)
      && if opt.intern then vals == [] && InternHolds(log, tab, byVal, ids)
         else vals == Concat(AllValues(log)) && tab == [] && byVal == map[] && ids == []
    }

    /** Until Build consumes it, a Builder's fields hold its log. */
    ghost predicate Valid()
      reads this
    {
      built || Holds()
    }

    /** The entry count is the number of Adds recorded. */
    lemma CountIsLength()
      requires Valid() && !built
      ensures n == |log|
    {
    }

    constructor (opt: Options)
      requires OptionsOk(opt)
      ensures this.opt == opt && Valid() && !built && log == []
    {
      this.opt := opt;
      v4, v6, n, built := [], [], 0, false;
      vals, tab, byVal, ids := [], [], map[], [];
      log := [];
    }

    /** The tests before anything is recorded, in the source's order. */
    method Admits(addr: Address, val: Value) returns (ok: bool)
      ensures ok <==> (addr.V4? || (addr.V6? && addr.zone == "")) && |val| == opt.valLen && n < 0xFFFF_FFFF
      ensures ok <==> Accepts(opt, n, addr, val)
    {
      if addr.Invalid? {
        return false;
      }
      if addr.V6? && addr.zone != "" {
        return false;
      }
      if |val| != opt.valLen {
        return false;
      }
      return n < MAX_U32;
    }

    /** Records one Add, or refuses it and changes nothing. */
    method Add(addr: Address, val: Value) returns (ok: bool)
      requires Valid() && !built
      modifies this
      ensures Valid() && !built
      ensures ok <==> (addr.V4? || (addr.V6? && addr.zone == "")) && |val| == opt.valLen && old(n) < 0xFFFF_FFFF
      ensures ok <==> Accepts(opt, old(n), addr, val)
      ensures n == if ok then old(n) + 1 else old(n)
      ensures ok ==> log == old(log) + [Rec(KeyOf(addr).value, val)]
      ensures !ok ==> log == old(log) && v4 == old(v4) && v6 == old(v6) && vals == old(vals)
                      && tab == old(tab) && byVal == old(byVal) && ids == old(ids)
    {
      ok := Admits(addr, val);
      if ok {
        KeyIsStorable(addr);
        Append(Rec(KeyOf(addr).value, val), addr, val);
      }
    }

    /** Appends one accepted Add to the fields. */
    method Append(ghost r: Rec, addr: Address, val: Value)
      requires Holds() && KeyOf(addr) == Some(r.key) && Storable(r.key)
      requires r.val == val && |val| == opt.valLen && n < MAX_U32
      modifies this`v4, this`v6, this`vals, this`tab, this`byVal, this`ids, this`log, this`n
      ensures Holds() && log == old(log) + [r] && n == old(n) + 1
    {
      LogPush(opt, log, r);
      RecordAddress(r, addr, n);
      Record(r, val);
      log := log + [r];
      n := n + 1;
    }

    /** The address half of Add: 32-bit for a 4-byte or 4-in-6 address, 128-bit otherwise. */
    method RecordAddress(ghost r: Rec, addr: Address, vi: u32)
      requires KeyOf(addr) == Some(r.key) && vi == |log| && Capped(log + [r]) && WordsHold(log, v4, v6)
      modifies this`v4, this`v6
      ensures WordsHold(log + [r], v4, v6)
    {
      match Unmap(addr)
      case V4(b) =>
        PushKey4(log, r, v4, v6);
        v4 := v4 + [Word(Ip4(b), vi)];
      case V6(b, _) =>
        var a := Addr6Of(b);
        PushKey6(log, r, v4, v6);
        v6 := v6 + [Entry6(a, vi)];
    }

    /** The value half of Add. */
    method Record(ghost r: Rec, val: Value)
      requires r.val == val && Capped(log + [r])
      requires if opt.intern then vals == [] && InternHolds(log, tab, byVal, ids)
               else vals == Concat(AllValues(log)) && tab == [] && byVal == map[] && ids == []
      modifies this`vals, this`tab, this`byVal, this`ids
      ensures if opt.intern then vals == [] && InternHolds(log + [r], tab, byVal, ids)
              else vals == Concat(AllValues(log + [r])) && tab == [] && byVal == map[] && ids == []
    {
      if opt.intern {
        if val in byVal {
          InternKnown(log, r, tab, byVal, ids);
          ids := ids + [byVal[val]];
        } else {
          InternNew(log, r, tab, byVal, ids);
          var id: u32 := |byVal|;
          byVal := byVal[val := id];
          tab := tab + val;
          ids := ids + [id];
        }
      } else {
        PushValue(log, r);
        vals := vals + val;
      }
    }

    /** The fields' values record the log's. */
    lemma FieldsRecord()
      requires Holds()
      ensures Records(Fields(opt, vals, tab, ids), log) && WordsHold(log, v4, v6)
      ensures Distinct(opt, log) == if opt.intern then |byVal| else 0
    {
      if opt.intern {
        InternedRecords(Fields(opt, vals, tab, ids), log, byVal);
      } else {
        DirectRecords(Fields(opt, vals, tab, ids), log);
      }
    }

    /** Compiles the log into a Map, releases what was accumulated, and ends the Builder's life. */
    method Build(epoch: i64) returns (m: Map)
      requires Valid() && !built
      modifies this`built, this`v4, this`v6, this`vals, this`byVal, this`ids
      ensures built && LogOk(opt, log)
      ensures m == BuildMap(opt, log, epoch)
      ensures v4 == [] && v6 == [] && vals == [] && byVal == map[] && ids == []
    {
      m := Compiled(epoch);
      Release();
    }

    /** The stores and the counts for the log, and the Builder marked as used up. */
    method Compiled(epoch: i64) returns (m: Map)
      requires Holds()
      modifies this`built
      ensures built && LogOk(opt, log)
      ensures m == BuildMap(opt, log, epoch)
    {
      FieldsRecord();
      built := true;
      var distinct := if opt.intern then |byVal| else 0;
      m := BuildBoth(Fields(opt, vals, tab, ids), log, v4, v6, distinct, epoch);
    }

    /** Drops the intermediates; the Map owns compact copies. */
    method Release()
      modifies this`v4, this`v6, this`vals, this`byVal, this`ids
      ensures v4 == [] && v6 == [] && vals == [] && byVal == map[] && ids == []
    {
      v4, v6, vals, byVal, ids := [], [], [], map[], [];
    }
  }
}
