// The main result: for every pair of compatible descriptors, decoding what pb_encode
// writes is the transmission of Schema.Absorb, whatever structure is decoded into and
// whatever bytes follow.
module Transfer {
  import opened Bits
  import opened Wire
  import opened Fields
  import opened Encoding
  import opened Decoding
  import opened Values
  import opened Locality
  import opened Schema

  // ---------- unknown fields ----------

  // Skipping consumes exactly the value the encoder wrote.
  lemma SkipValue(f: Field, v: Value, t: bytes)
    requires ValidValue(f, v) && f.dataSize <= DATA_MAX
    ensures Wire.SkipField(WireTypeOf(f.ltype), EncValue(f, v) + t) == Ok((), |EncValue(f, v)|)
  {
    hide SkipVarint, DecBlock, EncBlock, EncMsg, EncVarint, EncFixed;
    match f.ltype
    case TSubmessage => SkipBlock(EncMsg(f.sub, v.m), t);
    case TBytes => SkipBlock(v.bs, t);
    case TString => SkipBlock(v.bs, t);
    case TFixedLengthBytes => SkipBlock(v.bs, t);
    case TBool => SkipOfVarint(if v.b then 1 else 0, t);
    case TVarint => SkipOfVarint(v.i % TWO64, t);
    case TUVarint => SkipOfVarint(v.i % TWO64, t);
    case TSVarint => SkipOfVarint(ZigZag(v.i) % TWO64, t);
    case TFixed32 =>
    case TFixed64 =>
  }

  lemma SkipBlock(data: bytes, t: bytes)
    requires |data| <= LENGTH_MAX
    ensures SkipString(EncBlock(data) + t) == Ok((), |EncBlock(data)|)
  {
    hide DecVarint32, EncVarint;
    assert EncBlock(data) + t == EncVarint(|data|) + (data + t);
    Varint32Cases(|data|, data + t);
  }

  lemma TagOf(wireType: nat, tag: nat, t: bytes)
    requires wireType < 8 && 1 <= tag <= MAX_TAG
    ensures DecTag(EncTag(wireType, tag) + t) == Tag(tag, wireType, |EncTag(wireType, tag)|)
    ensures |EncTag(wireType, tag)| >= 1
  {
    hide DecTag;
    TagRoundTrip(wireType, tag, t);
  }

  lemma SkipRecord(dst: seq<Field>, f: Field, v: Value, t: bytes, st: State)
    requires WellFormedField(f) && ValidValue(f, v) && Lookup(dst, f.tag).None?
    ensures DecLoop(dst, EncRecord(f, v) + t, st) == Shift(|EncRecord(f, v)|, DecLoop(dst, t, st))
  {
    hide DecTag, EncTag, Lookup, Wire.SkipField, EncValue, WellFormedField, ValidValue;
    assert 1 <= f.tag <= MAX_TAG && f.dataSize <= DATA_MAX by { UnfoldField(f); }
    var tag := EncTag(WireTypeOf(f.ltype), f.tag);
    var s := EncRecord(f, v) + t;
    assert s == tag + (EncValue(f, v) + t);
    TagOf(WireTypeOf(f.ltype), f.tag, EncValue(f, v) + t);
    SkipValue(f, v, t);
    assert s[|tag|..] == EncValue(f, v) + t;
    assert s[|EncRecord(f, v)|..] == t;
  }

  lemma UnfoldField(f: Field)
    requires WellFormedField(f)
    ensures f.atype.Static? && 1 <= f.tag <= MAX_TAG && f.dataSize <= DATA_MAX
  {
  }

  lemma {:induction false} SkipRecords(dst: seq<Field>, f: Field, items: seq<Value>, t: bytes, st: State)
    requires WellFormedField(f) && Lookup(dst, f.tag).None?
    requires forall k :: 0 <= k < |items| ==> ValidValue(f, items[k])
    ensures DecLoop(dst, EncRecords(f, items) + t, st) == Shift(|EncRecords(f, items)|, DecLoop(dst, t, st))
    decreases |items|
  {
    hide DecLoop, Lookup, EncRecord, WellFormedField, ValidValue;
    if items == [] {
      assert EncRecords(f, items) + t == t;
    } else {
      var rest := EncRecords(f, items[1..]);
      assert EncRecords(f, items) + t == EncRecord(f, items[0]) + (rest + t);
      SkipRecord(dst, f, items[0], rest + t, st);
      SkipRecords(dst, f, items[1..], t, st);
    }
  }

  lemma SkipPacked(dst: seq<Field>, f: Field, items: seq<Value>, t: bytes, st: State)
    requires WellFormedField(f) && Lookup(dst, f.tag).None?
    requires Packable(f.ltype) && items != [] && |EncPacked(f, items)| <= LENGTH_MAX
    ensures DecLoop(dst, EncArray(f, items) + t, st) == Shift(|EncArray(f, items)|, DecLoop(dst, t, st))
  {
    hide DecTag, EncTag, Lookup, EncBlock, SkipString, WellFormedField, EncPacked;
    UnfoldField(f);
    var tag, block := EncTag(WT_STRING, f.tag), EncBlock(EncPacked(f, items));
    var s := EncArray(f, items) + t;
    assert EncArray(f, items) == tag + block;
    assert s == tag + (block + t);
    TagOf(WT_STRING, f.tag, block + t);
    SkipBlock(EncPacked(f, items), t);
    assert s[|tag|..] == block + t;
    assert s[|tag + block|..] == t;
  }

  // A field the receiver does not know leaves no trace.
  lemma SkipUnknown(dst: seq<Field>, f: Field, slot: Slot, t: bytes, st: State)
    requires WellFormedField(f) && ValidSlot(f, slot) && Lookup(dst, f.tag).None?
    ensures DecLoop(dst, EncField(f, slot) + t, st) == Shift(|EncField(f, slot)|, DecLoop(dst, t, st))
  {
    hide DecLoop, Lookup, EncRecord, WellFormedField, ValidValue, EncRecords, EncPacked, IsZero, EncTag, EncBlock;
    if !Present(f, slot) {
      assert EncField(f, slot) + t == t;
    } else if !f.htype.Repeated? {
      SkipRecord(dst, f, ValueOf(slot), t, st);
    } else if Packable(f.ltype) {
      SkipPacked(dst, f, ItemsOf(slot), t, st);
    } else {
      SkipRecords(dst, f, ItemsOf(slot), t, st);
    }
  }

  // ---------- known fields ----------

  // The record of a known field, once its tag has been read.
  lemma KnownRecord(dst: seq<Field>, j: nat, wireType: nat, tag: nat, body: bytes, t: bytes, st: State)
    requires wireType < 8 && 1 <= tag <= MAX_TAG && Lookup(dst, tag) == Some(j) && j < |dst|
    requires EnterFixed(dst, j, st).Some?
    ensures var rec := EncTag(wireType, tag) + body;
            var e := EnterFixed(dst, j, st).value;
            var r := DecField(dst[j], wireType, body + t, Get(e.msg, Offset(dst, j)), e.fixedCount);
            && (r.Fail? ==> DecLoop(dst, rec + t, st) == Failed)
            && (r.Ok? && r.n == |body| ==>
                  DecLoop(dst, rec + t, st) == Shift(|rec|, DecLoop(dst, t, AfterField(dst, j, st, r.value))))
  {
    hide DecTag, EncTag, Lookup, DecField, EnterFixed;
    var head := EncTag(wireType, tag);
    var s := head + body + t;
    assert s == head + (body + t);
    TagOf(wireType, tag, body + t);
    assert s[|head|..] == body + t;
    assert s[|head + body|..] == t;
    var known := DecKnown(dst, j, wireType, body + t, st);
    var step := Step(dst, s, st);
    assert step == if known.Next? then Next(known.st, |head| + known.n) else Error;
  }

  // The state after field j received a new slot.
  function AfterField(dst: seq<Field>, j: nat, st: State, r: (Slot, nat)): State
    requires j < |dst| && EnterFixed(dst, j, st).Some?
  {
    var e := EnterFixed(dst, j, st).value;
    State(e.msg[Offset(dst, j) := r.0], MarkSeen(dst, j, e.seen), e.fixedField, r.1)
  }

  // What a run does when a field is absorbed as `r`, or not at all.
  function Outcome(dst: seq<Field>, j: nat, st: State, r: Option<(Slot, nat)>, n: nat, t: bytes): Run
    requires j < |dst| && EnterFixed(dst, j, st).Some?
  {
    match r
    case Some(x) => Shift(n, DecLoop(dst, t, AfterField(dst, j, st, x)))
    case None => Failed
  }

  lemma ScalarAt(d: Field, f: Field, v: Value, t: bytes)
    requires d.atype.Static? && f.atype.Static?
    requires ValidScalar(f, v) && f.dataSize <= PB_SIZE_MAX
    requires d.ltype == f.ltype && d.dataSize == f.dataSize
    ensures DecScalar(d, EncScalar(f, v) + t) == Ok(v, |EncScalar(f, v)|)
    ensures |EncScalar(f, v)| >= 1
  {
    hide EncScalar;
    ScalarRoundTrip(f, v, t);
    assert DecScalar(d, EncScalar(f, v) + t) == DecScalar(f, EncScalar(f, v) + t);
  }

  lemma {:induction false} PackedTransfer(d: Field, f: Field, items: seq<Value>, slot: Slot, c: nat)
    requires d.atype.Static? && f.atype.Static?
    requires d.ltype == f.ltype && d.dataSize == f.dataSize <= PB_SIZE_MAX && Packable(f.ltype)
    requires forall k :: 0 <= k < |items| ==> ValidScalar(f, items[k])
    ensures DecPacked(d, EncPacked(f, items), slot, c) == AbsorbItems(d, slot, c, f, items)
    decreases |items|
  {
    hide DecScalar, EncScalar, ValidScalar;
    if items != [] {
      var rest := EncPacked(f, items[1..]);
      ScalarAt(d, f, items[0], rest);
      assert (EncScalar(f, items[0]) + rest)[|EncScalar(f, items[0])|..] == rest;
      assert AbsorbValue(d, BaseMsg(d, slot), f, items[0]) == Some(items[0]);
      PackedTransfer(d, f, items[1..], PutItem(d, slot, c, items[0]), Bump(d, c));
    }
  }

  lemma {:induction false} MsgTransfer(dst: seq<Field>, src: seq<Field>, msg: Message, into: Message)
    requires WellFormed(dst) && WellFormed(src) && Compatible(dst, src) && Valid(src, msg)
    ensures DecMsg(dst, EncMsg(src, msg), into) ==
            match Absorb(dst, into, src, msg)
            case Some(m) => Ok(m, |EncMsg(src, msg)|)
            case None => Fail
    decreases src, |src| + 1
  {
    hide DecLoop, EncFrom, AbsorbFrom, WellFormed, Compatible, Valid;
    var st2 := FromTransfer(dst, src, msg, 0, [], Start(into));
    assert EncMsg(src, msg) + [] == EncMsg(src, msg);
    if Absorb(dst, into, src, msg).Some? {
      assert DecLoop(dst, [], st2) == Done(st2, 0, false) by { LoopEnd(dst, st2); }
      AllRequired(dst, src, st2.seen);
    }
  }

  lemma LoopEnd(dst: seq<Field>, st: State)
    ensures DecLoop(dst, [], st) == Done(st, 0, false)
  {
  }

  // The required fields among those the sender knows from field i on.
  ghost predicate Covers(dst: seq<Field>, src: seq<Field>, i: nat, seen: set<nat>) {
    forall k, j :: i <= k < |src| && 0 <= j < |dst| && src[k].tag == dst[j].tag ==>
      dst[j].htype.Required? && RequiredBefore(dst, j) < MAX_REQUIRED_FIELDS ==> RequiredBefore(dst, j) in seen
  }

  lemma {:induction false} RequiredField(fields: seq<Field>, n: nat, r: nat) returns (j: nat)
    requires n <= |fields| && r < RequiredBefore(fields, n)
    ensures j < n && fields[j].htype.Required? && RequiredBefore(fields, j) == r
  {
    if RequiredBefore(fields, n - 1) == r {
      j := n - 1;
    } else {
      j := RequiredField(fields, n - 1, r);
    }
  }

  lemma AllRequired(dst: seq<Field>, src: seq<Field>, seen: set<nat>)
    requires Compatible(dst, src) && Covers(dst, src, 0, seen)
    ensures RequiredDone(dst, seen)
  {
    hide SameShape;
    forall r | 0 <= r < RequiredBefore(dst, |dst|) && r < MAX_REQUIRED_FIELDS
      ensures r in seen
    {
      var j := RequiredField(dst, |dst|, r);
      assert exists i :: 0 <= i < |src| && src[i].tag == dst[j].tag;
    }
  }

  // The fields from i on, in any state of the loop between two fields.
  lemma {:induction false} FromTransfer(dst: seq<Field>, src: seq<Field>, msg: Message, i: nat, t: bytes, st: State)
    returns (st2: State)
    requires WellFormed(dst) && WellFormed(src) && Compatible(dst, src) && Valid(src, msg)
    requires i <= |src| && FixedDone(dst, st)
    requires st.fixedField.Some? ==> forall k :: i <= k < |src| ==> Lookup(dst, src[k].tag) != st.fixedField
    ensures var m := AbsorbFrom(dst, st.msg, src, msg, i);
            var enc := EncFrom(src, msg, i);
            && (m.None? ==> DecLoop(dst, enc + t, st) == Failed)
            && (m.Some? ==>
                  && DecLoop(dst, enc + t, st) == Shift(|enc|, DecLoop(dst, t, st2))
                  && st2.msg == m.value && FixedDone(dst, st2)
                  && st.seen <= st2.seen && Covers(dst, src, i, st2.seen)
                  && (NoFixedCount(dst) ==> st2.fixedField == st.fixedField))
    decreases src, |src| - i
  {
    hide DecLoop, Lookup, WellFormedField, ValidSlot, EncField, AbsorbSlot, Present, FixedDone,
      WellFormed, Compatible, Valid, Offset, RequiredBefore;
    st2 := st;
    if i == |src| {
      assert EncFrom(src, msg, i) + t == t;
      return;
    }
    var f := src[i];
    var s := Get(msg, Offset(src, i));
    var rest := EncFrom(src, msg, i + 1);
    FieldOfSender(src, msg, i);
    assert EncFrom(src, msg, i) + t == EncField(f, s) + (rest + t);
    var known := Lookup(dst, f.tag);
    if known.None? {
      SkipUnknown(dst, f, s, rest + t, st);
      st2 := FromTransfer(dst, src, msg, i + 1, t, st);
      NotCovered(dst, f.tag);
    } else {
      var j := known.value;
      KnownShape(dst, src, i);
      if !Present(f, s) {
        AbsentField(dst[j], f, s);
        assert EncField(f, s) + (rest + t) == rest + t;
        st2 := FromTransfer(dst, src, msg, i + 1, t, st);
        OnlyCovered(dst, j, f.tag);
      } else {
        var st1 := Advance(dst, src, msg, i, rest + t, st);
        if AbsorbSlot(dst[j], Get(st.msg, Offset(dst, j)), f, s).Some? {
          OtherTags(dst, src, i, st1.fixedField);
          st2 := FromTransfer(dst, src, msg, i + 1, t, st1);
          OnlyCovered(dst, j, f.tag);
        }
      }
    }
  }

  lemma NotCovered(dst: seq<Field>, tag: nat)
    requires tag != 0 && Lookup(dst, tag).None?
    ensures forall j :: 0 <= j < |dst| ==> dst[j].tag != tag
  {
  }

  lemma OnlyCovered(dst: seq<Field>, j: nat, tag: nat)
    requires WellFormed(dst) && j < |dst| && dst[j].tag == tag
    ensures forall k :: 0 <= k < |dst| && dst[k].tag == tag ==> k == j
  {
    hide WellFormedField;
  }

  lemma AbsentField(d: Field, f: Field, s: Slot)
    requires !Present(f, s)
    ensures EncField(f, s) == []
    ensures SameShape(d, f) ==> !d.htype.Required?
  {
    hide IsZero;
  }

  lemma FieldOfSender(src: seq<Field>, msg: Message, i: nat)
    requires WellFormed(src) && Valid(src, msg) && i < |src|
    ensures WellFormedField(src[i]) && ValidSlot(src[i], Get(msg, Offset(src, i))) && src[i].tag != 0
  {
    assert WellFormedField(src[i]);
    UnfoldField(src[i]);
  }

  // One value, at any nesting depth.
  lemma {:induction false} ValueTransfer(d: Field, f: Field, v: Value, t: bytes, slot: Slot)
    requires WellFormedField(d) && WellFormedField(f) && SameShape(d, f) && ValidValue(f, v)
    ensures DecValue(d, EncValue(f, v) + t, slot) ==
            match AbsorbValue(d, BaseMsg(d, slot), f, v)
            case Some(x) => Ok(x, |EncValue(f, v)|)
            case None => Fail
    decreases f, 0
  {
    if f.ltype.TSubmessage? {
      BlockRoundTrip(EncMsg(f.sub, v.m), t);
      MsgTransfer(d.sub, f.sub, v.m, BaseMsg(d, slot));
    } else {
      ScalarAt(d, f, v, t);
    }
  }

  // A single record of a known field: one value, or one array entry.
  lemma {:induction false} RecordTransfer(dst: seq<Field>, j: nat, f: Field, v: Value, t: bytes, st: State)
    requires j < |dst| && WellFormedField(dst[j]) && WellFormedField(f) && SameShape(dst[j], f) && ValidValue(f, v)
    requires Lookup(dst, f.tag) == Some(j) && EnterFixed(dst, j, st).Some?
    ensures var d := dst[j];
            var e := EnterFixed(dst, j, st).value;
            var slot := Get(e.msg, Offset(dst, j));
            DecLoop(dst, EncRecord(f, v) + t, st) ==
            if f.htype.Repeated? && CountOf(d, slot, e.fixedCount) >= Capacity(d) then Failed
            else
              match AbsorbValue(d, BaseMsg(d, slot), f, v)
              case Some(x) =>
                var stored := (StoreValue(d, slot, e.fixedCount, x), Bump(d, e.fixedCount));
                Outcome(dst, j, st, Some(stored), |EncRecord(f, v)|, t)
              case None => Failed
    decreases f, 1
  {
    hide DecLoop, Lookup, EnterFixed, EncValue, WellFormedField, ValidValue, DecValue, EncTag, AbsorbValue;
    UnfoldField(f);
    var e := EnterFixed(dst, j, st).value;
    var slot := Get(e.msg, Offset(dst, j));
    assert dst[j].htype == f.htype && dst[j].ltype == f.ltype;
    ValueTransfer(dst[j], f, v, t, slot);
    KnownRecord(dst, j, WireTypeOf(f.ltype), f.tag, EncValue(f, v), t, st);
  }

  // An unpacked array, record by record.
  lemma {:induction false} RecordsTransfer(dst: seq<Field>, j: nat, f: Field, items: seq<Value>, t: bytes, st: State)
    requires j < |dst| && WellFormedField(dst[j]) && WellFormedField(f) && SameShape(dst[j], f)
    requires forall k :: 0 <= k < |items| ==> ValidValue(f, items[k])
    requires Lookup(dst, f.tag) == Some(j) && EnterFixed(dst, j, st).Some?
    requires f.htype.Repeated? && !Packable(f.ltype) && items != []
    ensures var e := EnterFixed(dst, j, st).value;
            DecLoop(dst, EncRecords(f, items) + t, st) ==
            Outcome(dst, j, st, AbsorbItems(dst[j], Get(e.msg, Offset(dst, j)), e.fixedCount, f, items),
                |EncRecords(f, items)|, t)
    decreases f, 2, |items|
  {
    hide DecLoop, Lookup, WellFormedField, ValidValue, EncRecord, AbsorbValue;
    var d := dst[j];
    var e := EnterFixed(dst, j, st).value;
    var slot := Get(e.msg, Offset(dst, j));
    var rest := EncRecords(f, items[1..]);
    assert EncRecords(f, items) + t == EncRecord(f, items[0]) + (rest + t);
    RecordTransfer(dst, j, f, items[0], rest + t, st);
    var x := AbsorbValue(d, BaseMsg(d, slot), f, items[0]);
    if CountOf(d, slot, e.fixedCount) < Capacity(d) && x.Some? {
      var r1 := (PutItem(d, slot, e.fixedCount, x.value), Bump(d, e.fixedCount));
      var st1 := AfterField(dst, j, st, r1);
      if items[1..] == [] {
        assert rest + t == t;
      } else {
        RecordsTransfer(dst, j, f, items[1..], t, st1);
        AfterTwice(dst, j, st, r1);
      }
    }
  }

  // Entries of one array leave the rest of the state as the first of them did.
  lemma AfterTwice(dst: seq<Field>, j: nat, st: State, r1: (Slot, nat))
    requires j < |dst| && EnterFixed(dst, j, st).Some? && dst[j].htype.Repeated?
    ensures var st1 := AfterField(dst, j, st, r1);
            && EnterFixed(dst, j, st1) == Some(st1)
            && Get(st1.msg, Offset(dst, j)) == r1.0
            && forall r2 :: AfterField(dst, j, st1, r2) == AfterField(dst, j, st, r2)
  {
    var e := EnterFixed(dst, j, st).value;
    var o := Offset(dst, j);
    forall r2: (Slot, nat)
      ensures AfterField(dst, j, AfterField(dst, j, st, r1), r2) == AfterField(dst, j, st, r2)
    {
      assert e.msg[o := r1.0][o := r2.0] == e.msg[o := r2.0];
    }
  }

  // The outcome of n more bytes for the same array, after the n1 bytes that gave r1.
  lemma OutcomeTwice(dst: seq<Field>, j: nat, st: State, r1: (Slot, nat), r2: Option<(Slot, nat)>, n1: nat, n: nat,
        t: bytes)
    requires j < |dst| && EnterFixed(dst, j, st).Some? && dst[j].htype.Repeated?
    ensures EnterFixed(dst, j, AfterField(dst, j, st, r1)).Some?
    ensures Shift(n1, Outcome(dst, j, AfterField(dst, j, st, r1), r2, n, t)) == Outcome(dst, j, st, r2, n1 + n, t)
  {
    AfterTwice(dst, j, st, r1);
  }

  // The whole of a known field that is transmitted.
  lemma {:induction false} FieldTransfer(dst: seq<Field>, j: nat, f: Field, s: Slot, t: bytes, st: State)
    requires j < |dst| && WellFormedField(dst[j]) && WellFormedField(f) && SameShape(dst[j], f)
    requires ValidSlot(f, s) && Present(f, s)
    requires Lookup(dst, f.tag) == Some(j) && EnterFixed(dst, j, st).Some?
    ensures var e := EnterFixed(dst, j, st).value;
            DecLoop(dst, EncField(f, s) + t, st) ==
            Outcome(dst, j, st, Absorbed(dst[j], Get(e.msg, Offset(dst, j)), e.fixedCount, f, s), |EncField(f, s)|, t)
    decreases f, 3
  {
    hide DecLoop, Lookup, WellFormedField, ValidValue, EncRecord, EncRecords, EncPacked, AbsorbValue, EnterFixed,
      IsZero;
    UnfoldField(f);
    UnfoldField(dst[j]);
    var d := dst[j];
    var e := EnterFixed(dst, j, st).value;
    var slot := Get(e.msg, Offset(dst, j));
    if !f.htype.Repeated? {
      RecordTransfer(dst, j, f, ValueOf(s), t, st);
    } else if !Packable(f.ltype) {
      RecordsTransfer(dst, j, f, ItemsOf(s), t, st);
    } else {
      PackedFieldTransfer(dst, j, f, ItemsOf(s), t, st);
    }
  }

  // AbsorbSlot with the counter of the decoder's loop.
  function Absorbed(d: Field, was: Slot, counter: nat, f: Field, s: Slot): Option<(Slot, nat)> {
    if f.htype.Repeated? then AbsorbItems(d, was, counter, f, ItemsOf(s))
    else
      match AbsorbSlot(d, was, f, s)
      case Some(slot) => Some((slot, Bump(d, counter)))
      case None => None
  }

  lemma PackedFieldTransfer(dst: seq<Field>, j: nat, f: Field, items: seq<Value>, t: bytes, st: State)
    requires j < |dst| && WellFormedField(f) && SameShape(dst[j], f) && dst[j].atype.Static?
    requires forall k :: 0 <= k < |items| ==> ValidValue(f, items[k])
    requires Lookup(dst, f.tag) == Some(j) && EnterFixed(dst, j, st).Some?
    requires f.htype.Repeated? && Packable(f.ltype) && items != [] && |EncPacked(f, items)| < TWO32
    ensures var e := EnterFixed(dst, j, st).value;
            DecLoop(dst, EncArray(f, items) + t, st) ==
            Outcome(dst, j, st, AbsorbItems(dst[j], Get(e.msg, Offset(dst, j)), e.fixedCount, f, items),
                |EncArray(f, items)|, t)
  {
    UnfoldField(f);
    var d := dst[j];
    var e := EnterFixed(dst, j, st).value;
    var slot := Get(e.msg, Offset(dst, j));
    forall k | 0 <= k < |items|
      ensures ValidScalar(f, items[k])
    {
      assert ValidValue(f, items[k]);
    }
    var data := EncPacked(f, items);
    PackedTransfer(d, f, items, slot, e.fixedCount);
    BlockRoundTrip(data, t);
    KnownRecord(dst, j, WT_STRING, f.tag, EncBlock(data), t, st);
  }

  lemma KnownShape(dst: seq<Field>, src: seq<Field>, i: nat)
    requires WellFormed(dst) && WellFormed(src) && Compatible(dst, src)
    requires i < |src| && Lookup(dst, src[i].tag).Some?
    ensures var j := Lookup(dst, src[i].tag).value;
            && j < |dst| && dst[j].tag == src[i].tag && SameShape(dst[j], src[i])
            && WellFormedField(dst[j]) && WellFormedField(src[i])
            && forall k :: 0 <= k < |src| && Lookup(dst, src[k].tag) == Some(j) ==> k == i
  {
    assert WellFormedField(src[i]);
    UnfoldField(src[i]);
    LookupTag(dst, src[i].tag);
    var j := Lookup(dst, src[i].tag).value;
    assert WellFormedField(dst[j]);
  }

  lemma OtherTags(dst: seq<Field>, src: seq<Field>, i: nat, fixedField: Option<nat>)
    requires WellFormed(dst) && WellFormed(src) && Compatible(dst, src)
    requires i < |src| && Lookup(dst, src[i].tag).Some?
    requires fixedField == Lookup(dst, src[i].tag) ||
             (fixedField.Some? ==> forall k :: i <= k < |src| ==> Lookup(dst, src[k].tag) != fixedField)
    ensures fixedField.Some? ==> forall k :: i + 1 <= k < |src| ==> Lookup(dst, src[k].tag) != fixedField
  {
    KnownShape(dst, src, i);
  }

  // How the counter of the loop evolves while an array is absorbed.
  lemma {:induction false} AbsorbItemsCounter(d: Field, slot: Slot, c: nat, f: Field, items: seq<Value>)
    ensures FixedCount(d) && AbsorbItems(d, slot, c, f, items).Some? ==>
      AbsorbItems(d, slot, c, f, items).value.1 == c + |items|
    ensures !FixedCount(d) ==>
      AbsorbItems(d, slot, c, f, items) ==
      match AbsorbItems(d, slot, 0, f, items)
      case Some(r) => Some((r.0, c))
      case None => None
    decreases |items|
  {
    hide AbsorbValue;
    if items != [] {
      var x := AbsorbValue(d, BaseMsg(d, slot), f, items[0]);
      if x.Some? {
        AbsorbItemsCounter(d, PutItem(d, slot, c, x.value), Bump(d, c), f, items[1..]);
      }
    }
  }

  // One transmitted field, from one state between two fields to the next.
  lemma {:induction false} Advance(dst: seq<Field>, src: seq<Field>, msg: Message, i: nat, t: bytes, st: State)
    returns (st1: State)
    requires WellFormed(dst) && WellFormed(src) && Compatible(dst, src)
    requires i < |src| && Lookup(dst, src[i].tag).Some? && Lookup(dst, src[i].tag) != st.fixedField
    requires FixedDone(dst, st)
    requires ValidSlot(src[i], Get(msg, Offset(src, i))) && Present(src[i], Get(msg, Offset(src, i)))
    ensures var j := Lookup(dst, src[i].tag).value;
            var s := Get(msg, Offset(src, i));
            var enc := EncField(src[i], s);
            && j < |dst|
            && (var slot := AbsorbSlot(dst[j], Get(st.msg, Offset(dst, j)), src[i], s);
                && (slot.None? ==> DecLoop(dst, enc + t, st) == Failed)
                && (slot.Some? ==>
                      && DecLoop(dst, enc + t, st) == Shift(|enc|, DecLoop(dst, t, st1))
                      && st1.msg == st.msg[Offset(dst, j) := slot.value]
                      && FixedDone(dst, st1) && st1.seen == MarkSeen(dst, j, st.seen)
                      && (st1.fixedField == if FixedCount(dst[j]) then Some(j) else st.fixedField)))
    decreases src[i], 4
  {
    hide DecLoop, Lookup, WellFormedField, WellFormed, Compatible, ValidValue, EncField, AbsorbValue, AbsorbItems,
      IsZero;
    KnownShape(dst, src, i);
    var f := src[i];
    var s := Get(msg, Offset(src, i));
    var j := Lookup(dst, f.tag).value;
    var d := dst[j];
    assert EnterFixed(dst, j, st).Some?;
    var e := EnterFixed(dst, j, st).value;
    FieldTransfer(dst, j, f, s, t, st);
    AbsorbItemsCounter(d, Get(e.msg, Offset(dst, j)), e.fixedCount, f, ItemsOf(s));
    var r := Absorbed(d, Get(e.msg, Offset(dst, j)), e.fixedCount, f, s);
    st1 := if r.Some? then AfterField(dst, j, st, r.value) else st;
  }
}
