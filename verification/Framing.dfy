// Destination framing: whatever the input bytes are, decoding writes only the storage of
// the fields it reads, keeps every value within its C type and buffer at every nesting
// level, and keeps every array count within bounds.
module Framing {
  import opened Bits
  import opened Wire
  import opened Fields
  import opened Encoding
  import opened Decoding
  import opened Locality
  import opened Schema
  import opened Transfer
  import opened RoundTrip
  import opened Required
  import opened Records
  import opened Order

  ghost predicate TypedValue(f: Field, v: Value)
    decreases f, 0
  {
    match f.ltype
    case TBool => v.VBool?
    case TVarint => v.VInt? && (IntWidth(f.dataSize) ==> InSigned(v.i, f.dataSize))
    case TSVarint => v.VInt? && (IntWidth(f.dataSize) ==> InSigned(v.i, f.dataSize))
    case TUVarint => v.VInt? && (IntWidth(f.dataSize) ==> InUnsigned(v.i, f.dataSize))
    case TFixed32 => v.VInt? && 0 <= v.i < TWO32
    case TFixed64 => v.VInt? && 0 <= v.i < TWO64
    case TBytes => v.VBytes? && |v.bs| + BYTES_OFFSET <= f.dataSize
    case TString => v.VBytes? && |v.bs| + 1 <= f.dataSize
    case TFixedLengthBytes => v.VBytes? && |v.bs| == f.dataSize
    case TSubmessage => v.VMsg? && Typed(f.sub, v.m)
    case TExtension => false
  }

  // Memory that nothing was written to occurs only in arrays with a fixed count.
  ghost predicate TypedItem(f: Field, v: Value)
    decreases f, 1
  {
    TypedValue(f, v) || (FixedCount(f) && v.VRaw?)
  }

  ghost predicate TypedSlot(f: Field, s: Slot)
    decreases f, 2
  {
    match f.htype
    case Required => s.One? && TypedValue(f, s.v)
    case Optional => (if f.sizeOffset != 0 then s.Opt? else s.One?) && TypedValue(f, ValueOf(s))
    case Oneof => s.Union? && (s.which == f.tag ==> TypedValue(f, s.v))
    case Repeated =>
      && (if f.sizeOffset != 0 then s.Many? && |s.items| <= f.arraySize else s.Fixed? && |s.items| == f.arraySize)
      && forall k :: 0 <= k < |ItemsOf(s)| ==> TypedItem(f, ItemsOf(s)[k])
  }

  // The structure has exactly the members of its descriptor, each of its C type.
  ghost predicate Typed(fields: seq<Field>, m: Message)
    decreases fields
  {
    && (forall i :: 0 <= i < |fields| ==> Offset(fields, i) in m && TypedSlot(fields[i], m[Offset(fields, i)]))
    && (forall o :: o in m ==> exists i :: 0 <= i < |fields| && Offset(fields, i) == o)
  }

  // Default values fit their fields.
  ghost predicate Initialized(fields: seq<Field>)
    decreases fields
  {
    forall i :: 0 <= i < |fields| ==>
      if fields[i].ltype.TSubmessage? then Initialized(fields[i].sub) else TypedValue(fields[i], fields[i].init)
  }

  ghost predicate Sound(fields: seq<Field>) {
    WellFormed(fields) && Initialized(fields)
  }

  ghost predicate SoundField(f: Field) {
    && WellFormedField(f)
    && if f.ltype.TSubmessage? then Sound(f.sub) else TypedValue(f, f.init)
  }

  lemma FieldsSound(fields: seq<Field>, i: nat)
    requires Sound(fields) && i < |fields|
    ensures SoundField(fields[i]) && fields[i].tag != 0
  {
    assert WellFormedField(fields[i]);
  }

  // ---------- defaults ----------

  // Memory that is not followed, or a well-typed structure.
  ghost predicate Old(fields: seq<Field>, was: Message) {
    was == map[] || Typed(fields, was)
  }

  // The defaults, over a well-typed structure or memory that is not followed.
  lemma {:induction false} DefaultTyped(fields: seq<Field>, was: Message)
    requires Sound(fields) && Old(fields, was)
    ensures Typed(fields, DefaultMsg(fields, was))
    decreases fields, |fields| + 1
  {
    hide TypedSlot, Sound, LayoutOk, DefaultSlot;
    var m := DefaultMsg(fields, was);
    assert WellFormed(fields) by { SoundParts(fields); }
    forall i | 0 <= i < |fields|
      ensures Offset(fields, i) in m && TypedSlot(fields[i], m[Offset(fields, i)])
    {
      DefaultHas(fields, |fields|, i, was);
      DefaultAt(fields, |fields|, i, was);
      FieldsSound(fields, i);
      OldSlot(fields, was, i);
      DefaultSlotTyped(fields[i], Get(was, Offset(fields, i)));
    }
    forall o | o in m
      ensures exists i :: 0 <= i < |fields| && Offset(fields, i) == o
    {
      var i := DefaultKey(fields, |fields|, o, was);
    }
  }

  ghost predicate OldSlotOk(f: Field, was: Slot) {
    was == One(VInt(0)) || TypedSlot(f, was)
  }

  lemma OldSlot(fields: seq<Field>, was: Message, i: nat)
    requires Old(fields, was) && i < |fields|
    ensures OldSlotOk(fields[i], Get(was, Offset(fields, i)))
  {
    hide TypedSlot;
  }

  lemma SoundParts(fields: seq<Field>)
    requires Sound(fields)
    ensures WellFormed(fields) && LayoutOk(fields)
  {
  }

  lemma {:induction false} DefaultHas(fields: seq<Field>, n: nat, i: nat, was: Message)
    requires i < n <= |fields|
    ensures Offset(fields, i) in DefaultUpTo(fields, n, was)
  {
    hide Offset, DefaultSlot;
    if i < n - 1 { DefaultHas(fields, n - 1, i, was); }
  }

  lemma {:induction false} DefaultKey(fields: seq<Field>, n: nat, o: nat, was: Message) returns (i: nat)
    requires n <= |fields| && o in DefaultUpTo(fields, n, was)
    ensures i < n && Offset(fields, i) == o
  {
    hide Offset, DefaultSlot;
    if o == Offset(fields, n - 1) {
      i := n - 1;
    } else {
      i := DefaultKey(fields, n - 1, o, was);
    }
  }

  lemma {:induction false} DefaultSlotTyped(f: Field, was: Slot)
    requires SoundField(f) && OldSlotOk(f, was)
    ensures TypedSlot(f, DefaultSlot(f, was))
    decreases f, 1
  {
    hide TypedValue, InitValue, Sound;
    assert f.tag != 0 by { UnfoldField(f); }
    if f.htype.Required? || f.htype.Optional? { InitTyped(f, was); }
  }

  lemma {:induction false} InitTyped(f: Field, was: Slot)
    requires SoundField(f) && OldSlotOk(f, was) && (f.htype.Required? || f.htype.Optional?)
    ensures TypedValue(f, InitValue(f, ValueOf(was)))
    decreases f, 0
  {
    hide Typed, DefaultMsg, Sound;
    var typed := TypedValue(f, ValueOf(was));
    if f.ltype.TSubmessage? { DefaultTyped(f.sub, AsMsg(ValueOf(was))); }
  }

  // ---------- values ----------

  lemma ScalarTyped(f: Field, s: bytes)
    requires f.atype.Static?
    requires DecScalar(f, s).Ok?
    ensures TypedValue(f, DecScalar(f, s).value)
  {
    hide DecVarint, DecVarint32, DecBlock, FixedValue, Pow2, UnZigZag;
    if f.ltype.TFixed32? {
      FixedValueBound(s[..4]);
      PowValues();
    } else if f.ltype.TFixed64? {
      FixedValueBound(s[..8]);
      PowValues();
    }
  }

  lemma {:induction false} PackedTyped(f: Field, data: bytes, slot: Slot, c: nat)
    requires f.atype.Static?
    requires TypedSlot(f, slot) && f.htype.Repeated? && DecPacked(f, data, slot, c).Some?
    ensures TypedSlot(f, DecPacked(f, data, slot, c).value.0)
    decreases |data|
  {
    hide DecScalar, TypedValue;
    if data != [] {
      var r := DecScalar(f, data);
      ScalarTyped(f, data);
      ItemTyped(f, slot, c, r.value);
      PackedTyped(f, data[r.n..], PutItem(f, slot, c, r.value), Bump(f, c));
    }
  }

  lemma ItemTyped(f: Field, slot: Slot, c: nat, v: Value)
    requires f.atype.Static?
    requires TypedSlot(f, slot) && f.htype.Repeated? && TypedValue(f, v) && CountOf(f, slot, c) < Capacity(f)
    ensures TypedSlot(f, PutItem(f, slot, c, v))
  {
    hide TypedValue;
  }

  // No record of an empty message type inside the payload has a tag of zero.
  predicate PayloadZeroFree(f: Field, s: bytes) {
    f.ltype.TSubmessage? && DecBlock(s).Ok? ==> NoZeroTag(f.sub, DecBlock(s).value)
  }

  lemma {:induction false} ValueTyped(f: Field, s: bytes, slot: Slot)
    requires SoundField(f) && TypedSlot(f, slot) && DecValue(f, s, slot).Ok? && PayloadZeroFree(f, s)
    ensures TypedValue(f, DecValue(f, s, slot).value)
    decreases |s|, 0
  {
    if f.ltype.TSubmessage? {
      BaseTyped(f, slot);
      MsgTyped(f.sub, DecBlock(s).value, BaseMsg(f, slot));
    } else {
      ScalarTyped(f, s);
    }
  }

  lemma BaseTyped(f: Field, slot: Slot)
    requires SoundField(f) && TypedSlot(f, slot) && f.ltype.TSubmessage?
    ensures Typed(f.sub, BaseMsg(f, slot)) && Sound(f.sub)
  {
    hide Typed, Sound, DefaultMsg;
    DefaultTyped(f.sub, map[]);
  }

  lemma {:induction false} FieldTyped(f: Field, wireType: nat, s: bytes, slot: Slot, c: nat)
    requires SoundField(f) && TypedSlot(f, slot) && DecField(f, wireType, s, slot, c).Ok? && PayloadZeroFree(f, s)
    ensures TypedSlot(f, DecField(f, wireType, s, slot, c).value.0)
    ensures f.htype.Oneof? ==> DecField(f, wireType, s, slot, c).value.0.Union?
    ensures f.htype.Oneof? ==> DecField(f, wireType, s, slot, c).value.0.which == f.tag
    decreases |s|, 1
  {
    hide DecBlock, DecPacked, DecValue, TypedValue, SoundField, PayloadZeroFree;
    SoundStatic(f);
    if f.htype.Repeated? && wireType == WT_STRING && Packable(f.ltype) {
      PackedTyped(f, DecBlock(s).value, slot, c);
    } else {
      ValueTyped(f, s, slot);
      if f.htype.Repeated? { ItemTyped(f, slot, c, DecValue(f, s, slot).value); }
    }
  }

  lemma SoundStatic(f: Field)
    requires SoundField(f)
    ensures f.atype.Static?
  {
    hide Sound, TypedValue;
  }

  // ---------- one record ----------

  lemma {:induction false} KnownTyped(fields: seq<Field>, i: nat, wireType: nat, s: bytes, st: State)
    requires Sound(fields) && i < |fields| && Typed(fields, st.msg)
    requires DecKnown(fields, i, wireType, s, st).Next? && PayloadZeroFree(fields[i], s)
    ensures Typed(fields, DecKnown(fields, i, wireType, s, st).st.msg)
    ensures DecKnown(fields, i, wireType, s, st).st.msg.Keys == st.msg.Keys
    ensures forall o :: o in st.msg && o != Offset(fields, i) ==>
              DecKnown(fields, i, wireType, s, st).st.msg[o] == st.msg[o]
    decreases |s|, 2
  {
    hide DecField, TypedSlot, Offset, Sound, RequiredBefore, PayloadZeroFree;
    var e := EnterFixed(fields, i, st).value;
    var o := Offset(fields, i);
    FieldsSound(fields, i);
    SoundParts(fields);
    FieldTyped(fields[i], wireType, s, st.msg[o], e.fixedCount);
    var slot := DecField(fields[i], wireType, s, st.msg[o], e.fixedCount).value.0;
    var m := st.msg[o := slot];
    forall k | 0 <= k < |fields|
      ensures TypedSlot(fields[k], m[Offset(fields, k)])
    {
      StorageDisjoint(fields, i, k);
      if Offset(fields, k) == o && k != i {
        if i < k { LeaderShared(fields, i, k); } else { LeaderShared(fields, k, i); }
        OtherMember(fields, i, k, slot);
      }
    }
  }

  lemma OtherMember(fields: seq<Field>, i: nat, k: nat, slot: Slot)
    requires Sound(fields) && i < |fields| && k < |fields| && i != k
    requires fields[k].htype.Oneof? && slot.Union? && slot.which == fields[i].tag
    ensures TypedSlot(fields[k], slot)
  {
    hide LayoutOk, Initialized, WellFormedField;
  }

  lemma {:induction false} StepTyped(fields: seq<Field>, s: bytes, st: State)
    requires Sound(fields) && Typed(fields, st.msg) && Step(fields, s, st).Next? && ZeroFree(fields, s)
    ensures DecTag(s).Tag?
    ensures var m := Step(fields, s, st).st.msg;
            && Typed(fields, m) && m.Keys == st.msg.Keys
            && forall i :: 0 <= i < |fields| && Get(m, Offset(fields, i)) != Get(st.msg, Offset(fields, i)) ==>
                 exists k :: 0 <= k < |fields| && Leader(fields, k) == Leader(fields, i) &&
                             fields[k].tag == DecTag(s).tag
    decreases |s|, 3
  {
    hide DecTag, DecKnown, Typed, Sound, Wire.SkipField, Offset;
    var tag := DecTag(s);
    var known := Lookup(fields, tag.tag);
    SoundParts(fields);
    if known.Some? {
      KnownTyped(fields, known.value, tag.wireType, s[tag.n..], st);
      forall i |
        0 <= i < |fields| &&
        Get(Step(fields, s, st).st.msg, Offset(fields, i)) != Get(st.msg, Offset(fields, i))
        ensures Leader(fields, known.value) == Leader(fields, i)
      {
        StorageDisjoint(fields, known.value, i);
      }
    }
  }

  // ---------- whole runs ----------

  // Field i, or a member of its union, is among the records read.
  ghost predicate Addressed(fields: seq<Field>, i: nat, tags: seq<nat>)
    requires i < |fields|
  {
    exists k :: 0 <= k < |fields| && Leader(fields, k) == Leader(fields, i) && fields[k].tag in tags
  }

  lemma {:induction false} LoopTyped(fields: seq<Field>, s: bytes, st: State)
    requires Sound(fields) && Typed(fields, st.msg) && DecLoop(fields, s, st).Done? && NoZeroTag(fields, s)
    ensures var m := DecLoop(fields, s, st).st.msg;
            && Typed(fields, m) && m.Keys == st.msg.Keys
            && forall i :: 0 <= i < |fields| && !Addressed(fields, i, TagsRead(fields, s, st)) ==>
                 Get(m, Offset(fields, i)) == Get(st.msg, Offset(fields, i))
    decreases |s|, 4
  {
    hide Step, Typed, Sound, DecTag, Offset, Leader, ZeroFree, RecordLength;
    if s != [] && Step(fields, s, st).Next? {
      var r := Step(fields, s, st);
      StepTakes(fields, s, st);
      StepTyped(fields, s, st);
      LoopTyped(fields, s[r.n..], r.st);
      var tags, rest := TagsRead(fields, s, st), TagsRead(fields, s[r.n..], r.st);
      assert tags == [DecTag(s).tag] + rest;
      forall i | 0 <= i < |fields| && !Addressed(fields, i, tags)
        ensures Get(r.st.msg, Offset(fields, i)) == Get(st.msg, Offset(fields, i))
        ensures !Addressed(fields, i, rest)
      {
        forall k | 0 <= k < |fields| && Leader(fields, k) == Leader(fields, i)
          ensures fields[k].tag !in rest && fields[k].tag != DecTag(s).tag
        {
          assert fields[k].tag !in tags;
          assert DecTag(s).tag in tags;
        }
      }
    }
  }

  // Decoding bytes without zero tags for empty message types into a well-typed structure
  // leaves a well-typed structure, and members that no record addressed have their old
  // contents.
  lemma {:induction false} MsgTyped(fields: seq<Field>, s: bytes, m: Message)
    requires Sound(fields) && Typed(fields, m) && DecMsg(fields, s, m).Ok? && NoZeroTag(fields, s)
    ensures var x := DecMsg(fields, s, m).value;
            && Typed(fields, x) && x.Keys == m.Keys
            && forall i :: 0 <= i < |fields| && !Addressed(fields, i, TagsRead(fields, s, Start(m))) ==>
                 Get(x, Offset(fields, i)) == Get(m, Offset(fields, i))
    decreases |s|, 5
  {
    hide DecLoop, Typed, Sound, Addressed, TagsRead, Offset, NoZeroTag;
    LoopTyped(fields, s, Start(m));
  }

  // pb_decode leaves a well-typed structure well-typed, whatever such bytes it accepts.
  lemma DecodeTyped(fields: seq<Field>, s: bytes, was: Message)
    requires Sound(fields) && Typed(fields, was) && Decode(fields, s, was).Ok? && NoZeroTag(fields, s)
    ensures Typed(fields, Decode(fields, s, was).value)
  {
    hide DecMsg, Typed, Sound, NoZeroTag;
    DefaultTyped(fields, was);
    MsgTyped(fields, s, DefaultMsg(fields, was));
  }

  // ---------- the empty message type ----------

  // In an empty message type a record with tag zero matches the terminator, a required
  // bool at offset zero: the decoder writes to a structure that has no member. Every
  // other input leaves the structure alone.
  lemma {:induction false} EmptyDescriptor(s: bytes, st: State)
    requires DecLoop([], s, st).Done?
    ensures st.msg == map[] ==> (DecLoop([], s, st).st.msg == map[] <==> 0 !in TagsRead([], s, st))
    ensures 0 in st.msg ==> 0 in DecLoop([], s, st).st.msg
    decreases |s|
  {
    hide DecTag, DecField, Wire.SkipField;
    if s != [] && Step([], s, st).Next? {
      var r := Step([], s, st);
      var tag := DecTag(s);
      var known := DecKnown([], 0, tag.wireType, s[tag.n..], st);
      assert tag.tag == 0 ==> known.Next? && r.st == known.st && 0 in r.st.msg;
      assert tag.tag != 0 ==> r.st == st;
      EmptyDescriptor(s[r.n..], r.st);
    }
  }

  // Such input: a submessage of an empty type, in it a record with tag zero. The inner
  // structure gets contents that no member of it holds.
  lemma EmptyNested()
    ensures var f := Field(1, Static, Required, TSubmessage, 0, 0, 1, 0, [], VInt(0));
            var was, s := map[0 := One(VMsg(map[]))], [10, 2, 1, 1];
            && Decode([f], s, was) == Ok(map[0 := One(VMsg(map[0 := One(VBool(true))]))], 4)
            && Typed([f], was) && !Typed([f], Decode([f], s, was).value) && !NoZeroTag([f], s)
  {
    var f := Field(1, Static, Required, TSubmessage, 0, 0, 1, 0, [], VInt(0));
    var was: Message := map[0 := One(VMsg(map[]))];
    EmptyDefault(f, was);
    EmptyRecord([1, 1]);
    OuterRecord(f, [10, 2, 1, 1], [1, 1], was);
    EmptyTyped(f);
  }

  lemma EmptyDefault(f: Field, was: Message)
    requires f == Field(1, Static, Required, TSubmessage, 0, 0, 1, 0, [], VInt(0)) && was == map[0 := One(VMsg(map[]))]
    ensures DefaultMsg([f], was) == was
  {
    var inner: Message := map[];
    assert DefaultMsg([], inner) == inner;
    assert InitValue(f, VMsg(inner)) == VMsg(inner) && DefaultSlot(f, was[0]) == One(VMsg(inner));
    assert Offset([f], 0) == 0 && DefaultUpTo([f], 0, was) == map[];
    assert DefaultUpTo([f], 1, was) == map[0 := DefaultSlot(f, was[0])];
  }

  // The record with tag zero.
  lemma EmptyRecord(block: bytes)
    requires block == [1, 1]
    ensures DecMsg([], block, map[]) == Ok(map[0 := One(VBool(true))], 2) && !NoZeroTag([], block)
  {
    var none: bytes, m: Message := [], map[];
    assert block[1..] == [1] && block[2..] == none;
    assert DecTag(block) == Tag(0, 1, 1) && DecScalar(LAST_FIELD, [1]) == Ok(VBool(true), 1);
    var value := DecValue(LAST_FIELD, [1], Get(m, 0));
    var known := DecKnown([], 0, 1, [1], Start(m));
    var st := State(m[0 := One(VBool(true))], {0}, None, 0);
    assert known == Next(st, 1);
    assert Step([], block, Start(m)) == Next(st, 2);
    assert DecLoop([], none, st) == Done(st, 0, false);
    assert DecLoop([], block, Start(m)) == Done(st, 2, false);
    assert !ZeroFree([], block);
  }

  // The record around it.
  lemma OuterRecord(f: Field, s: bytes, block: bytes, m: Message)
    requires f == Field(1, Static, Required, TSubmessage, 0, 0, 1, 0, [], VInt(0)) && m == map[0 := One(VMsg(map[]))]
    requires s == [10, 2, 1, 1] && block == [1, 1] && DecMsg([], block, map[]) == Ok(map[0 := One(VBool(true))], 2)
    requires !NoZeroTag([], block)
    ensures DecMsg([f], s, m) == Ok(map[0 := One(VMsg(map[0 := One(VBool(true))]))], 4) && !NoZeroTag([f], s)
  {
    hide DecMsg, NoZeroTag;
    var body: bytes, none: bytes := [2, 1, 1], [];
    assert s[1..] == body && body[1..] == block && s[4..] == none && body[1..3] == block;
    assert DecTag(s) == Tag(1, 2, 1) && DecBlock(body) == Ok(block, 3);
    assert Lookup([f], 1) == Some(0);
    var inner := One(VMsg(map[0 := One(VBool(true))]));
    var st := State(m[0 := inner], {0}, None, 0);
    OuterStep(f, s, body, block, m, inner);
    assert m[0 := inner] == map[0 := inner];
    OuterRun(f, s, m, st);
    OuterZero(f, s, body, block);
  }

  lemma OuterStep(f: Field, s: bytes, body: bytes, block: bytes, m: Message, inner: Slot)
    requires f == Field(1, Static, Required, TSubmessage, 0, 0, 1, 0, [], VInt(0)) && Get(m, 0) == One(VMsg(map[]))
    requires DecTag(s) == Tag(1, 2, 1) && |s| >= 1 && s[1..] == body && DecBlock(body) == Ok(block, 3)
    requires Lookup([f], 1) == Some(0) && DecMsg([], block, map[]).Ok?
               && inner == One(VMsg(DecMsg([], block, map[]).value))
    ensures Step([f], s, Start(m)) == Next(State(m[0 := inner], {0}, None, 0), 4)
  {
    hide DecMsg, DecBlock;
    var value := DecValue(f, body, Get(m, 0));
    var field := DecField(f, 2, body, Get(m, 0), 0);
    var known := DecKnown([f], 0, 2, body, Start(m));
    assert known == Next(State(m[0 := inner], {0}, None, 0), 3);
  }

  lemma OuterRun(f: Field, s: bytes, m: Message, st: State)
    requires f.htype.Required? && |s| == 4 && Step([f], s, Start(m)) == Next(st, 4) && st.seen == {0}
               && st.fixedField.None?
    ensures DecMsg([f], s, m) == Ok(st.msg, 4)
  {
    hide Step;
    var none: bytes := [];
    assert s[4..] == none && DecLoop([f], none, st) == Done(st, 0, false);
    assert DecLoop([f], s, Start(m)) == Done(st, 4, false);
    OneRequired(f);
  }

  lemma OuterZero(f: Field, s: bytes, body: bytes, block: bytes)
    requires f.ltype.TSubmessage? && f.sub == [] && s != [] && DecTag(s) == Tag(1, 2, 1) && s[1..] == body
    requires DecBlock(body) == Ok(block, 3) && Lookup([f], 1) == Some(0) && !NoZeroTag([], block)
    ensures !NoZeroTag([f], s)
  {
    hide DecTag, DecBlock, RecordLength, Lookup;
    assert FieldAt([f], 0) == f;
    assert !ZeroFree([f], s);
  }

  lemma EmptyTyped(f: Field)
    requires f == Field(1, Static, Required, TSubmessage, 0, 0, 1, 0, [], VInt(0))
    ensures Typed([f], map[0 := One(VMsg(map[]))]) && !Typed([f], map[0 := One(VMsg(map[0 := One(VBool(true))]))])
  {
    var none: Message, some: Message := map[], map[0 := One(VBool(true))];
    assert Typed([], none) && !Typed([], some) by { assert 0 in some; }
    assert TypedValue(f, VMsg(none)) && !TypedValue(f, VMsg(some));
    assert Offset([f], 0) == 0;
    assert TypedSlot(f, One(VMsg(none))) && !TypedSlot(f, One(VMsg(some)));
    assert [f][0] == f;
  }
}
