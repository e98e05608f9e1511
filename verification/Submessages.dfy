// A submessage that is transmitted twice: merged, unless it belongs to a oneof or is
// behind a pointer.
module Submessages {
  import opened Bits
  import opened Wire
  import opened Fields
  import opened Encoding
  import opened Decoding
  import opened Records
  import opened Order
  import opened Schema
  import opened Values
  import opened Locality
  import opened Transfer
  import opened Replacing
  import RoundTrip

  predicate Single(f: Field) {
    f.ltype.TSubmessage? && !f.htype.Repeated?
  }

  // A member of a oneof is zeroed for every record, and a submessage behind a pointer is
  // released and allocated again.
  predicate Restarts(f: Field) {
    f.htype.Oneof? || f.atype.Pointer?
  }

  // What one record with the submessage x makes of a slot.
  function Received(f: Field, x: bytes, slot: Slot): Option<Slot> {
    match DecField(f, WT_STRING, EncBlock(x), slot, 0)
    case Ok(r, _) => Some(r.0)
    case Fail => None
  }

  lemma ReceivedMsg(f: Field, x: bytes, slot: Slot)
    requires Single(f) && |x| < TWO32
    ensures Received(f, x, slot) ==
            match DecMsg(f.sub, x, BaseMsg(f, slot))
            case Ok(m, _) => Some(StoreValue(f, slot, 0, VMsg(m)))
            case Fail => None
  {
    hide DecMsg, DecBlock, EncBlock;
    BlockRoundTrip(x, []);
    assert EncBlock(x) + [] == EncBlock(x);
    var value := DecValue(f, EncBlock(x), slot);
    assert value ==
           match DecMsg(f.sub, x, BaseMsg(f, slot))
           case Ok(m, _) => Ok(VMsg(m), |EncBlock(x)|)
           case Fail => Fail;
  }

  // The records x and y are both received, one after the other, and could be sent as one.
  predicate Pair(f: Field, slot: Slot, x: bytes, y: bytes) {
    && |x + y| < TWO32 && !Terminated(f.sub, x)
    && Received(f, x, slot).Some? && Received(f, y, Received(f, x, slot).value).Some?
  }

  // Two records have the effect of one with both contents.
  predicate Merged(f: Field, slot: Slot, x: bytes, y: bytes)
    requires Pair(f, slot, x, y)
  {
    Received(f, x + y, slot) == Received(f, y, Received(f, x, slot).value)
  }

  ghost predicate Merging(f: Field) {
    forall slot, x, y :: Pair(f, slot, x, y) ==> Merged(f, slot, x, y)
  }

  // A static required or optional submessage is merged with what was received before.
  lemma SubmessagesMerge(f: Field, slot: Slot, x: bytes, y: bytes)
    requires Single(f) && !Restarts(f) && NoFixedCount(f.sub) && Pair(f, slot, x, y)
    ensures Merged(f, slot, x, y)
  {
    hide DecMsg, DecField, DecLoop, Terminated, EncBlock;
    var base := BaseMsg(f, slot);
    ReceivedMsg(f, x, slot);
    ReceivedMsg(f, y, Received(f, x, slot).value);
    ReceivedMsg(f, x + y, slot);
    NotTerminated(f.sub, x, base);
    ConcatenationMerges(f.sub, x, y, base);
  }

  // Otherwise it is replaced: what it held before makes no difference.
  lemma RestartForgets(f: Field, x: bytes, slot: Slot, other: Slot)
    requires Single(f) && Restarts(f) && |x| < TWO32
    ensures Received(f, x, slot) == Received(f, x, other)
  {
    hide DecMsg, DecField;
    ReceivedMsg(f, x, slot);
    ReceivedMsg(f, x, other);
  }

  // ---------- when merging holds ----------

  // Where every field of the message type can hold something other than its default, two
  // records are merged whatever they contain exactly when the field is neither a member of
  // a oneof nor a pointer, or when every message of the type sets every field.
  lemma MergingIff(f: Field)
    requires Single(f) && Rich(f.sub, TWO32 - 1)
    ensures Merging(f) <==> !Restarts(f) || Determined(f.sub)
  {
    hide DecMsg, DecField, Terminated, Received, Rich, Determined, Forgetful;
    RichParts(f.sub, TWO32 - 1);
    if !Restarts(f) {
      forall slot, x, y | Pair(f, slot, x, y)
        ensures Merged(f, slot, x, y)
      {
        SubmessagesMerge(f, slot, x, y);
      }
    } else {
      RestartMerging(f);
      ForgetfulIffDetermined(f.sub);
    }
  }

  // Both cases occur: a oneof whose type is one required bool is merged, and one whose
  // bool is optional is not.
  lemma OneofCases()
    ensures var sub := [Field(1, Static, Required, TBool, 0, 0, 1, 0, [], VBool(false))];
            Merging(Field(3, Static, Oneof, TSubmessage, 0, 1, 1, 0, sub, VInt(0)))
    ensures var sub := [Field(1, Static, Optional, TBool, 0, 1, 1, 0, [], VBool(false))];
            !Merging(Field(3, Static, Oneof, TSubmessage, 0, 1, 1, 0, sub, VInt(0)))
  {
    hide Merging, Rich, Determined;
    OneBool();
    OneFlag();
    MergingIff(Field(3, Static, Oneof, TSubmessage, 0, 1, 1, 0,
                     [Field(1, Static, Required, TBool, 0, 0, 1, 0, [], VBool(false))], VInt(0)));
    MergingIff(Field(3, Static, Oneof, TSubmessage, 0, 1, 1, 0,
                     [Field(1, Static, Optional, TBool, 0, 1, 1, 0, [], VBool(false))], VInt(0)));
  }

  lemma RestartMerging(f: Field)
    requires Single(f) && Restarts(f)
    ensures Merging(f) <==> Forgetful(f.sub)
  {
    hide DecMsg, DecField, Terminated, Received, Defaults, Merging, Forgetful;
    if Merging(f) {
      forall x, y | Readable(f.sub, x) && Readable(f.sub, y) && |x + y| < TWO32 && !Terminated(f.sub, x)
        ensures Lost(f, x, y)
      {
        RestartPair(f, Union(0, VRaw), x, y);
        UseMerging(f, Union(0, VRaw), x, y);
      }
      MakeForgetful(f);
    }
    if Forgetful(f.sub) {
      forall slot, x, y | Pair(f, slot, x, y)
        ensures Merged(f, slot, x, y)
      {
        RestartPair(f, slot, x, y);
        UseForgetful(f.sub, x, y);
      }
      assert Merging(f) by { MakeMerging(f); }
    }
  }

  ghost predicate Lost(f: Field, x: bytes, y: bytes) {
    && DecMsg(f.sub, x + y, Defaults(f.sub)).Ok? && DecMsg(f.sub, y, Defaults(f.sub)).Ok?
    && DecMsg(f.sub, x + y, Defaults(f.sub)).value == DecMsg(f.sub, y, Defaults(f.sub)).value
  }

  lemma RestartPair(f: Field, slot: Slot, x: bytes, y: bytes)
    requires Single(f) && Restarts(f) && |x + y| < TWO32
    ensures Pair(f, slot, x, y) <==> Readable(f.sub, x) && Readable(f.sub, y) && !Terminated(f.sub, x)
    ensures Pair(f, slot, x, y) ==> (Merged(f, slot, x, y) <==> Lost(f, x, y))
  {
    hide DecMsg, DecField, Terminated, Received;
    ReceivedMsg(f, x, slot);
    if Received(f, x, slot).Some? { ReceivedMsg(f, y, Received(f, x, slot).value); }
    ReceivedMsg(f, y, slot);
    ReceivedMsg(f, x + y, slot);
  }

  lemma UseMerging(f: Field, slot: Slot, x: bytes, y: bytes)
    requires Merging(f) && Pair(f, slot, x, y)
    ensures Merged(f, slot, x, y)
  {
    hide Received, Terminated;
  }

  lemma MakeMerging(f: Field)
    requires forall slot, x, y :: Pair(f, slot, x, y) ==> Merged(f, slot, x, y)
    ensures Merging(f)
  {
    hide Received, Terminated;
  }

  lemma UseForgetful(fields: seq<Field>, x: bytes, y: bytes)
    requires Forgetful(fields) && Readable(fields, x) && Readable(fields, y) && |x + y| < TWO32
               && !Terminated(fields, x)
    ensures DecMsg(fields, x + y, Defaults(fields)).Ok?
    ensures DecMsg(fields, x + y, Defaults(fields)).value == DecMsg(fields, y, Defaults(fields)).value
  {
    hide DecMsg, Terminated;
  }

  lemma MakeForgetful(f: Field)
    requires forall x, y :: Readable(f.sub, x) && Readable(f.sub, y) && |x + y| < TWO32 && !Terminated(f.sub, x) ==>
               Lost(f, x, y)
    ensures Forgetful(f.sub)
  {
    hide DecMsg, Terminated;
  }

  // ---------- two records ----------

  // A record of an optional bool whose tag takes one byte.
  lemma BoolStep(fields: seq<Field>, j: nat, s: bytes, st: State)
    requires j < |fields| && fields[j].htype.Optional? && fields[j].ltype.TBool? && fields[j].sizeOffset != 0
    requires |s| >= 2 && DecTag(s) == Tag(fields[j].tag, 0, 1) && s[1] == 1 && Lookup(fields, fields[j].tag) == Some(j)
    ensures Step(fields, s, st) ==
            Next(State(st.msg[Offset(fields, j) := Opt(true, VBool(true))], st.seen, st.fixedField, st.fixedCount), 2)
  {
    var t := s[1..];
    assert t[0] == 1 && DecVarint32(t) == Ok(1, 1);
    var slot := Get(st.msg, Offset(fields, j));
    var value := DecValue(fields[j], t, slot);
    var field := DecField(fields[j], 0, t, slot, st.fixedCount);
    var known := DecKnown(fields, j, 0, t, st);
    hide Offset;
  }

  // The message type of the example, and its defaults.
  function Flag(tag: nat, at: nat): Field {
    Field(tag, Static, Optional, TBool, at, 1, 1, 0, [], VBool(false))
  }

  function Flags(first: bool, second: bool): Message {
    map[0 := Opt(first, VBool(first)), 2 := Opt(second, VBool(second))]
  }

  lemma FlagsLayout()
    ensures var sub := [Flag(1, 0), Flag(2, 1)];
            && Offset(sub, 0) == 0 && Offset(sub, 1) == 2 && RequiredBefore(sub, 2) == 0
            && Lookup(sub, 1) == Some(0) && Lookup(sub, 2) == Some(1)
            && Defaults(sub) == Flags(false, false)
  {
    var sub := [Flag(1, 0), Flag(2, 1)];
    assert Offset(sub, 0) == 0 && Offset(sub, 1) == 2;
    assert RequiredBefore(sub, 1) == 0;
    LookupKnown(sub, 0);
    LookupKnown(sub, 1);
    var none: Message := map[];
    assert DefaultUpTo(sub, 0, none) == map[];
    assert DefaultUpTo(sub, 1, none) == map[0 := Opt(false, VBool(false))];
  }

  lemma FlagSet(x: bytes, m: Message)
    requires x == [8, 1] || x == [16, 1]
    ensures var sub := [Flag(1, 0), Flag(2, 1)];
            var at := if x[0] == 8 then 0 else 2;
            && DecMsg(sub, x, m) == Ok(m[at := Opt(true, VBool(true))], 2) && !Terminated(sub, x)
  {
    var sub := [Flag(1, 0), Flag(2, 1)];
    var j := if x[0] == 8 then 0 else 1;
    FlagsLayout();
    assert DecTag(x) == Tag(sub[j].tag, 0, 1);
    BoolStep(sub, j, x, Start(m));
    hide Step, Lookup, RequiredBefore, Offset, Defaults;
    assert x[2..] == [];
    var st := Start(m).(msg := m[if j == 0 then 0 else 2 := Opt(true, VBool(true))]);
    LoopEnd(sub, st);
    assert DecLoop(sub, x, Start(m)) == Done(st, 2, false);
    StoppedIsTerminated(sub, x, Start(m));
  }

  // A submessage with two bools, in a oneof or behind a pointer: one record sets the
  // first, another the second, and the first is lost. One record with both keeps both.
  lemma FirstIsLost(f: Field, slot: Slot)
    requires f == Field(3, Static, Oneof, TSubmessage, 0, 1, 4, 0, [Flag(1, 0), Flag(2, 1)], VInt(0))
             || f == Field(3, Pointer, Optional, TSubmessage, 0, 0, 4, 0, [Flag(1, 0), Flag(2, 1)], VInt(0))
    ensures Received(f, [8, 1], slot) == Some(Holding(f, Flags(true, false)))
    ensures Received(f, [16, 1], Holding(f, Flags(true, false))) == Some(Holding(f, Flags(false, true)))
    ensures Received(f, [8, 1] + [16, 1], slot) == Some(Holding(f, Flags(true, true)))
  {
    hide DecMsg, DecField, Defaults;
    FlagsLayout();
    var x: bytes, y: bytes, d := [8, 1], [16, 1], Flags(false, false);
    FlagSet(x, d);
    FlagSet(y, d);
    FlagSet(y, Flags(true, false));
    assert d[0 := Opt(true, VBool(true))] == Flags(true, false) && d[2 := Opt(true, VBool(true))] == Flags(false, true);
    assert Flags(true, false)[2 := Opt(true, VBool(true))] == Flags(true, true);
    NotTerminated(f.sub, x, d);
    NoFixedFlags();
    ConcatenationMerges(f.sub, x, y, d);
    ReceivedMsg(f, x, slot);
    ReceivedMsg(f, y, Holding(f, Flags(true, false)));
    ReceivedMsg(f, x + y, slot);
  }

  function Holding(f: Field, m: Message): Slot {
    if f.htype.Oneof? then Union(f.tag, VMsg(m)) else Opt(true, VMsg(m))
  }

  lemma NoFixedFlags()
    ensures NoFixedCount([Flag(1, 0), Flag(2, 1)])
  {
  }
}
