// What a structure holds after its defaults and after a whole run, told from the bytes of the
// run alone.
module Runs {
  import opened Wire
  import opened Fields
  import opened Encoding
  import opened Decoding
  import opened Records
  import opened Schema
  import opened Format
  import opened Required
  import RoundTrip

  // ---------- descriptors ----------

  // Static members and pointers, laid out one behind the other.
  ghost predicate Described(fields: seq<Field>)
    decreases fields
  {
    LayoutOk(fields) && forall i :: 0 <= i < |fields| ==> DescribedField(fields[i])
  }

  ghost predicate DescribedField(f: Field)
    decreases f
  {
    !f.atype.Callback? && f.dataSize >= 1 && (f.ltype.TSubmessage? ==> Described(f.sub))
  }

  lemma DescribedAt(fields: seq<Field>, i: nat)
    requires Described(fields) && i < |fields|
    ensures DescribedField(fields[i])
  {
  }

  lemma {:induction false} WellFormedDescribed(fields: seq<Field>)
    requires WellFormed(fields)
    ensures Described(fields)
    decreases fields
  {
    hide LayoutOk;
    forall i | 0 <= i < |fields|
      ensures DescribedField(fields[i])
    {
      FieldOk(fields, i);
      if fields[i].ltype.TSubmessage? { WellFormedDescribed(fields[i].sub); }
    }
  }

  // ---------- defaults ----------

  // Each field holds the default of its descriptor, and is marked absent; `was` is what the
  // structure held. An array with a fixed count keeps the entries that no byte of a count of
  // its own would cover.
  ghost predicate AtDefaults(fields: seq<Field>, m: Message, was: Message)
    decreases fields
  {
    forall j :: 0 <= j < |fields| ==> AtDefault(fields[j], Get(m, Offset(fields, j)), Get(was, Offset(fields, j)))
  }

  ghost predicate AtDefault(f: Field, s: Slot, was: Slot)
    decreases f, 1
  {
    match f.htype
    case Required =>
      if f.atype.Pointer? then s == Opt(false, VRaw) else s.One? && DefaultValue(f, s.v, ValueOf(was))
    case Optional =>
      if f.atype.Pointer? then s == Opt(false, VRaw)
      else if f.sizeOffset != 0 then s.Opt? && !s.has && DefaultValue(f, s.v, ValueOf(was))
      else s.One? && DefaultValue(f, s.v, ValueOf(was))
    case Repeated =>
      if f.sizeOffset != 0 then s == Many([])
      else s.Fixed? && |s.items| == f.arraySize && Left(f, s.items, ItemsOf(was))
    case Oneof => s.Union? && s.which == 0
  }

  ghost predicate DefaultValue(f: Field, v: Value, was: Value)
    decreases f, 0
  {
    if f.ltype.TSubmessage? then v.VMsg? && AtDefaults(f.sub, v.m, AsMsg(was)) else v == f.init
  }

  predicate Left(f: Field, items: seq<Value>, was: seq<Value>) {
    forall k :: 0 <= k < |items| ==> items[k] == if f.dataSize * k >= Header() && k < |was| then was[k] else VRaw
  }

  lemma {:induction false} DefaultsSet(fields: seq<Field>, was: Message)
    requires Described(fields)
    ensures AtDefaults(fields, DefaultMsg(fields, was), was)
    decreases fields, 1
  {
    hide LayoutOk, DescribedField, DefaultSlot, AtDefault, DefaultMsg, Offset;
    forall j | 0 <= j < |fields|
      ensures AtDefault(fields[j], Get(DefaultMsg(fields, was), Offset(fields, j)), Get(was, Offset(fields, j)))
    {
      DescribedAt(fields, j);
      DefaultIs(fields, was, j);
      SlotSet(fields[j], Get(was, Offset(fields, j)));
    }
  }

  lemma DefaultIs(fields: seq<Field>, was: Message, j: nat)
    requires Described(fields) && j < |fields|
    ensures Get(DefaultMsg(fields, was), Offset(fields, j)) == DefaultSlot(fields[j], Get(was, Offset(fields, j)))
  {
    hide LayoutOk, DescribedField, DefaultSlot, DefaultUpTo, Offset;
    RoundTrip.DefaultAt(fields, |fields|, j, was);
  }

  lemma {:induction false} SlotSet(f: Field, was: Slot)
    requires DescribedField(f)
    ensures AtDefault(f, DefaultSlot(f, was), was)
    decreases f, 0
  {
    hide DefaultMsg, AtDefaults, Described, Overwritten;
    if f.htype.Repeated? {
      if f.sizeOffset == 0 { LeftOver(f, ItemsOf(was)); }
    } else if f.ltype.TSubmessage? {
      DefaultsSet(f.sub, AsMsg(ValueOf(was)));
    }
  }

  lemma LeftOver(f: Field, was: seq<Value>)
    requires f.dataSize >= 1
    ensures Left(f, Uninitialized(f, was), was)
  {
    hide Overwritten;
    forall k: nat
      ensures Overwritten(f) <= k <==> f.dataSize * k >= Header()
    {
      Covered(f, k);
    }
  }

  lemma Covered(f: Field, k: nat)
    requires f.dataSize >= 1
    ensures Overwritten(f) <= k <==> f.dataSize * k >= Header()
  {
    var n := Overwritten(f);
    assert Header() <= f.dataSize * n < Header() + f.dataSize;
    if n <= k {
      assert f.dataSize * n <= f.dataSize * k;
    } else {
      assert f.dataSize * (k + 1) <= f.dataSize * n;
    }
  }

  // ---------- the last record for a field ----------

  // A record for field i, and the bytes from its payload on.
  datatype Found = Found(i: nat, payload: bytes)

  // The record at the front, if it is for a field of the union that starts with field l; a
  // field outside of unions is one by itself.
  function Here(fields: seq<Field>, s: bytes, l: nat): (r: Option<Found>)
    ensures r.Some? ==> r.value.i < |fields|
  {
    match DecTag(s)
    case Tag(tag, _, n) =>
      (match Lookup(fields, tag)
       case Some(i) => if i < |fields| && Leader(fields, i) == l then Some(Found(i, s[n..])) else None
       case None => None)
    case _ => None
  }

  function Last(fields: seq<Field>, s: bytes, l: nat): (r: Option<Found>)
    ensures r.Some? ==> r.value.i < |fields|
    decreases |s|
  {
    if s == [] then None
    else
      match RecordLength(fields, s)
      case None => None
      case Some(n) =>
        match Last(fields, s[n..], l)
        case Some(r) => Some(r)
        case None => Here(fields, s, l)
  }

  // What a record leaves in a field that is not repeated and does not merge.
  ghost predicate Shows(f: Field, payload: bytes, s: Slot) {
    match f.htype
    case Required =>
      if f.atype.Pointer? then s.Opt? && s.has && Reads(f, payload, s.v) else s.One? && Reads(f, payload, s.v)
    case Optional =>
      if f.atype.Pointer? || f.sizeOffset != 0 then s.Opt? && s.has && Reads(f, payload, s.v)
      else s.One? && Reads(f, payload, s.v)
    case Oneof => s.Union? && s.which == f.tag && Reads(f, payload, s.v)
    case Repeated => true
  }

  // The value of a scalar; of a submessage in a oneof or behind a pointer, its block decoded
  // over defaults.
  ghost predicate Reads(f: Field, payload: bytes, v: Value) {
    if !f.ltype.TSubmessage? then DecScalar(f, payload).Ok? && DecScalar(f, payload).value == v
    else f.htype.Oneof? || f.atype.Pointer? ==>
      && DecBlock(payload).Ok? && v.VMsg?
      && var r := Decode(f.sub, DecBlock(payload).value, map[]); r.Ok? && r.value == v.m
  }

  lemma FieldShows(f: Field, wireType: nat, s: bytes, slot: Slot, c: nat)
    requires DecField(f, wireType, s, slot, c).Ok?
    ensures Shows(f, s, DecField(f, wireType, s, slot, c).value.0)
  {
    hide DecScalar, DecBlock, DecMsg, DefaultMsg, DecPacked;
    if !f.htype.Repeated? {
      var v := DecValue(f, s, slot);
    }
  }

  lemma {:induction false} StepShows(fields: seq<Field>, s: bytes, st: State, j: nat)
    requires Described(fields) && j < |fields| && Step(fields, s, st).Next?
    ensures var slot := Get(Step(fields, s, st).st.msg, Offset(fields, j));
            match Here(fields, s, Leader(fields, j))
            case Some(r) => Shows(fields[r.i], r.payload, slot)
            case None => slot == Get(st.msg, Offset(fields, j))
  {
    hide DecTag, DecField, Wire.SkipField, Offset, Shows, Leader, LayoutOk, MarkSeen;
    var tag := DecTag(s);
    var known := Lookup(fields, tag.tag);
    if known.Some? {
      var i := known.value;
      DescribedParts(fields);
      KnownInside(fields, tag.tag);
      StorageDisjoint(fields, i, j);
      var e := EnterFixed(fields, i, st).value;
      FieldShows(fields[i], tag.wireType, s[tag.n..], Get(e.msg, Offset(fields, i)), e.fixedCount);
    }
  }

  lemma DescribedParts(fields: seq<Field>)
    requires Described(fields)
    ensures LayoutOk(fields)
  {
  }

  lemma KnownInside(fields: seq<Field>, tag: nat)
    requires fields != [] && Lookup(fields, tag).Some?
    ensures Lookup(fields, tag).value < |fields|
  {
  }

  lemma {:induction false} LoopShows(fields: seq<Field>, s: bytes, st: State, j: nat)
    requires Described(fields) && j < |fields| && DecLoop(fields, s, st).Done?
    ensures var slot := Get(DecLoop(fields, s, st).st.msg, Offset(fields, j));
            match Last(fields, s, Leader(fields, j))
            case Some(r) => Shows(fields[r.i], r.payload, slot)
            case None => slot == Get(st.msg, Offset(fields, j))
    decreases |s|
  {
    hide Step, Here, RecordLength, Described, Offset, Leader, Shows;
    if s != [] {
      var r := Step(fields, s, st);
      if r.Next? {
        StepTakes(fields, s, st);
        StepShows(fields, s, st, j);
        LoopShows(fields, s[r.n..], r.st, j);
      } else {
        StopLength(fields, s, st);
      }
    }
  }

  lemma StopLength(fields: seq<Field>, s: bytes, st: State)
    requires Step(fields, s, st).Stop?
    ensures RecordLength(fields, s).None?
  {
    hide DecTag, Lookup, DecKnown, Wire.SkipField;
  }

  // In a field that is not repeated, nor a submessage that merges, the last record for it or
  // for its union decides; without any the field is as it was.
  lemma LastWins(fields: seq<Field>, s: bytes, m: Message, j: nat)
    requires Described(fields) && j < |fields| && DecMsg(fields, s, m).Ok?
    ensures var slot := Get(DecMsg(fields, s, m).value, Offset(fields, j));
            match Last(fields, s, Leader(fields, j))
            case Some(r) => Shows(fields[r.i], r.payload, slot)
            case None => slot == Get(m, Offset(fields, j))
  {
    hide DecLoop, Described, Offset, Leader, Shows, Last;
    LoopShows(fields, s, Start(m), j);
  }

  // After pb_decode, a field without any record is at its default.
  lemma LastWinsAnew(fields: seq<Field>, s: bytes, was: Message, j: nat)
    requires Described(fields) && j < |fields| && Decode(fields, s, was).Ok?
    ensures var slot := Get(Decode(fields, s, was).value, Offset(fields, j));
            match Last(fields, s, Leader(fields, j))
            case Some(r) => Shows(fields[r.i], r.payload, slot)
            case None => AtDefault(fields[j], slot, Get(was, Offset(fields, j)))
  {
    hide DecMsg, Described, Offset, Leader, Shows, Last, AtDefault, DefaultMsg;
    DefaultsSet(fields, was);
    LastWins(fields, s, DefaultMsg(fields, was), j);
  }

  // ---------- arrays and submessages ----------

  // The entries of a packed run.
  function PackedEntries(f: Field, data: bytes): seq<Value>
    decreases |data|
  {
    if data == [] then []
    else
      match DecScalar(f, data)
      case Ok(v, n) => [v] + PackedEntries(f, data[n..])
      case Fail => []
  }

  // The entries that a record adds to an array; a submessage starts from its defaults.
  function Added(f: Field, wireType: nat, payload: bytes): seq<Value> {
    if wireType == 2 && Packable(f.ltype) then
      if DecBlock(payload).Ok? then PackedEntries(f, DecBlock(payload).value) else []
    else if f.ltype.TSubmessage? then
      if DecBlock(payload).Ok? && Decode(f.sub, DecBlock(payload).value, map[]).Ok? then
        [VMsg(Decode(f.sub, DecBlock(payload).value, map[]).value)]
      else []
    else if DecScalar(f, payload).Ok? then [DecScalar(f, payload).value] else []
  }

  // The record at the front, if it is for field j: its wire type and the bytes from its
  // payload on.
  function Ours(fields: seq<Field>, s: bytes, j: nat): Option<(nat, bytes)> {
    match DecTag(s)
    case Tag(tag, wireType, n) => if Lookup(fields, tag) == Some(j) then Some((wireType, s[n..])) else None
    case _ => None
  }

  // The entries that the records of s add to array j.
  function AddedBy(fields: seq<Field>, s: bytes, j: nat): seq<Value>
    requires j < |fields|
    decreases |s|
  {
    if s == [] then []
    else
      match RecordLength(fields, s)
      case None => []
      case Some(n) =>
        (match Ours(fields, s, j)
         case Some((wireType, payload)) => Added(fields[j], wireType, payload)
         case None => []) + AddedBy(fields, s[n..], j)
  }

  lemma {:induction false} PackedAdds(f: Field, data: bytes, slot: Slot, c: nat)
    requires !FixedCount(f) && DecPacked(f, data, slot, c).Some?
    ensures ItemsOf(DecPacked(f, data, slot, c).value.0) == ItemsOf(slot) + PackedEntries(f, data)
    decreases |data|
  {
    hide DecScalar;
    if data != [] {
      var r := DecScalar(f, data);
      PackedAdds(f, data[r.n..], PutItem(f, slot, c, r.value), Bump(f, c));
    }
  }

  lemma FieldAdds(f: Field, wireType: nat, s: bytes, slot: Slot, c: nat)
    requires f.htype.Repeated? && !FixedCount(f) && DecField(f, wireType, s, slot, c).Ok?
    ensures ItemsOf(DecField(f, wireType, s, slot, c).value.0) == ItemsOf(slot) + Added(f, wireType, s)
  {
    hide DecScalar, DecBlock, DecMsg, DefaultMsg, DecPacked, PackedEntries;
    if wireType == WT_STRING && Packable(f.ltype) {
      PackedAdds(f, DecBlock(s).value, slot, c);
    } else {
      var v := DecValue(f, s, slot);
    }
  }

  // The bytes are entries one behind the other.
  predicate WholeEntries(f: Field, data: bytes)
    decreases |data|
  {
    data == [] || (DecScalar(f, data).Ok? && WholeEntries(f, data[DecScalar(f, data).n..]))
  }

  // The entries an array may have: those of its member, or as many as its count can tell.
  function Room(f: Field): nat {
    if f.atype.Pointer? then PB_SIZE_MAX else f.arraySize
  }

  lemma {:induction false} PackedAccepted(f: Field, data: bytes, slot: Slot, c: nat)
    requires f.htype.Repeated?
    ensures DecPacked(f, data, slot, c).Some? <==>
            data == [] || (WholeEntries(f, data) && CountOf(f, slot, c) + |PackedEntries(f, data)| <= Room(f))
    decreases |data|
  {
    hide DecScalar;
    if data != [] {
      var r := DecScalar(f, data);
      if r.Ok? { PackedAccepted(f, data[r.n..], PutItem(f, slot, c, r.value), Bump(f, c)); }
    }
  }

  // A scalar record is accepted when its payload is, whatever its wire type; only wire type 2
  // makes a packed run of an array of numbers, which is accepted when its block is made of
  // whole entries. Arrays need room.
  lemma ScalarAccepted(f: Field, wireType: nat, s: bytes, slot: Slot, c: nat)
    requires !f.ltype.TSubmessage?
    ensures DecField(f, wireType, s, slot, c).Ok? <==>
            if !f.htype.Repeated? then DecScalar(f, s).Ok?
            else if wireType == 2 && Packable(f.ltype) then
              DecBlock(s).Ok? &&
              (DecBlock(s).value == [] ||
               (WholeEntries(f, DecBlock(s).value) &&
                CountOf(f, slot, c) + |PackedEntries(f, DecBlock(s).value)| <= Room(f)))
            else DecScalar(f, s).Ok? && CountOf(f, slot, c) < Room(f)
  {
    hide DecScalar, DecBlock, DecPacked, PackedEntries, WholeEntries;
    if f.htype.Repeated? && wireType == WT_STRING && Packable(f.ltype) {
      if DecBlock(s).Ok? { PackedAccepted(f, DecBlock(s).value, slot, c); }
    } else {
      var v := DecValue(f, s, slot);
    }
  }

  // A submessage is accepted when its block is, merged into the member or, in an array, a
  // oneof or an allocation, decoded over defaults.
  lemma SubmessageAccepted(f: Field, wireType: nat, s: bytes, slot: Slot, c: nat)
    requires f.ltype.TSubmessage?
    ensures DecField(f, wireType, s, slot, c).Ok? <==>
            && DecBlock(s).Ok?
            && (f.htype.Repeated? ==> CountOf(f, slot, c) < Room(f))
            && (if f.atype.Pointer? || f.htype.Repeated? || f.htype.Oneof? then
                  Decode(f.sub, DecBlock(s).value, map[]).Ok?
                else DecMsg(f.sub, DecBlock(s).value, AsMsg(ValueOf(slot))).Ok?)
  {
    hide DecBlock, DecMsg, DefaultMsg;
    var v := DecValue(f, s, slot);
  }

  // What a record leaves in field j.
  lemma StepFor(fields: seq<Field>, s: bytes, st: State, j: nat)
    requires Described(fields) && j < |fields| && !fields[j].htype.Oneof? && Step(fields, s, st).Next?
    ensures var was, slot := Get(st.msg, Offset(fields, j)), Get(Step(fields, s, st).st.msg, Offset(fields, j));
            match Ours(fields, s, j)
            case Some((wireType, payload)) =>
              exists c: nat :: DecField(fields[j], wireType, payload, was, c).Ok? &&
                               DecField(fields[j], wireType, payload, was, c).value.0 == slot
            case None => slot == was
  {
    hide DecTag, DecField, Wire.SkipField, Offset, Leader, LayoutOk, MarkSeen;
    var tag := DecTag(s);
    var known := Lookup(fields, tag.tag);
    if known.Some? {
      var i := known.value;
      DescribedParts(fields);
      KnownInside(fields, tag.tag);
      StorageDisjoint(fields, i, j);
      var e := EnterFixed(fields, i, st).value;
      if i == j {
        assert DecField(fields[j], tag.wireType, s[tag.n..], Get(st.msg, Offset(fields, j)), e.fixedCount).Ok?;
      } else if Leader(fields, i) == Leader(fields, j) {
        if i < j { RoundTrip.LeaderShared(fields, i, j); } else { RoundTrip.LeaderShared(fields, j, i); }
      }
    }
  }

  lemma {:induction false} LoopAdds(fields: seq<Field>, s: bytes, st: State, j: nat)
    requires Described(fields) && j < |fields| && fields[j].htype.Repeated? && !FixedCount(fields[j])
    requires DecLoop(fields, s, st).Done?
    ensures ItemsOf(Get(DecLoop(fields, s, st).st.msg, Offset(fields, j))) ==
            ItemsOf(Get(st.msg, Offset(fields, j))) + AddedBy(fields, s, j)
    decreases |s|
  {
    hide Step, RecordLength, Described, Offset, Added, Ours, DecField;
    if s != [] {
      var r := Step(fields, s, st);
      if r.Next? {
        StepTakes(fields, s, st);
        StepFor(fields, s, st, j);
        var ours, was := Ours(fields, s, j), Get(st.msg, Offset(fields, j));
        if ours.Some? {
          var c: nat :| DecField(fields[j], ours.value.0, ours.value.1, was, c).Ok? &&
                        DecField(fields[j], ours.value.0, ours.value.1, was, c).value.0 ==
                        Get(r.st.msg, Offset(fields, j));
          FieldAdds(fields[j], ours.value.0, ours.value.1, was, c);
        }
        LoopAdds(fields, s[r.n..], r.st, j);
      } else {
        StopLength(fields, s, st);
      }
    }
  }

  // A run appends to an array the entries of all its records, in their order.
  lemma ArraysGrow(fields: seq<Field>, s: bytes, m: Message, j: nat)
    requires Described(fields) && j < |fields| && fields[j].htype.Repeated? && !FixedCount(fields[j])
    requires DecMsg(fields, s, m).Ok?
    ensures ItemsOf(Get(DecMsg(fields, s, m).value, Offset(fields, j))) ==
            ItemsOf(Get(m, Offset(fields, j))) + AddedBy(fields, s, j)
  {
    hide DecLoop, Described, Offset, AddedBy;
    LoopAdds(fields, s, Start(m), j);
  }

  // The blocks that the records of s have for submessage j, merged one after the other.
  function Merged(fields: seq<Field>, s: bytes, j: nat, m: Message): Message
    requires j < |fields|
    decreases |s|
  {
    if s == [] then m
    else
      match RecordLength(fields, s)
      case None => m
      case Some(n) => Merged(fields, s[n..], j, MergedFirst(fields, s, j, m))
  }

  function MergedFirst(fields: seq<Field>, s: bytes, j: nat, m: Message): Message
    requires j < |fields|
  {
    match Ours(fields, s, j)
    case Some((_, payload)) =>
      if DecBlock(payload).Ok? && DecMsg(fields[j].sub, DecBlock(payload).value, m).Ok? then
        DecMsg(fields[j].sub, DecBlock(payload).value, m).value
      else m
    case None => m
  }

  lemma FieldMerges(f: Field, wireType: nat, s: bytes, slot: Slot, c: nat)
    requires f.ltype.TSubmessage? && f.atype.Static? && (f.htype.Required? || f.htype.Optional?)
    requires DecField(f, wireType, s, slot, c).Ok?
    ensures DecBlock(s).Ok? && DecMsg(f.sub, DecBlock(s).value, AsMsg(ValueOf(slot))).Ok?
    ensures AsMsg(ValueOf(DecField(f, wireType, s, slot, c).value.0)) ==
            DecMsg(f.sub, DecBlock(s).value, AsMsg(ValueOf(slot))).value
  {
    hide DecBlock, DecMsg, DefaultMsg;
    var v := DecValue(f, s, slot);
  }

  lemma {:induction false} LoopMerges(fields: seq<Field>, s: bytes, st: State, j: nat)
    requires Described(fields) && j < |fields| && fields[j].ltype.TSubmessage?
    requires fields[j].atype.Static? && (fields[j].htype.Required? || fields[j].htype.Optional?)
    requires DecLoop(fields, s, st).Done?
    ensures AsMsg(ValueOf(Get(DecLoop(fields, s, st).st.msg, Offset(fields, j)))) ==
            Merged(fields, s, j, AsMsg(ValueOf(Get(st.msg, Offset(fields, j)))))
    decreases |s|
  {
    hide Step, RecordLength, Described, Offset, Ours, DecField, DecBlock, DecMsg;
    if s != [] {
      var r := Step(fields, s, st);
      if r.Next? {
        StepTakes(fields, s, st);
        StepFor(fields, s, st, j);
        var ours, was := Ours(fields, s, j), Get(st.msg, Offset(fields, j));
        if ours.Some? {
          var c: nat :| DecField(fields[j], ours.value.0, ours.value.1, was, c).Ok? &&
                        DecField(fields[j], ours.value.0, ours.value.1, was, c).value.0 ==
                        Get(r.st.msg, Offset(fields, j));
          FieldMerges(fields[j], ours.value.0, ours.value.1, was, c);
        }
        LoopMerges(fields, s[r.n..], r.st, j);
      } else {
        StopLength(fields, s, st);
      }
    }
  }

  // A static required or optional submessage is what the blocks of all its records merge to.
  lemma BlocksMerge(fields: seq<Field>, s: bytes, m: Message, j: nat)
    requires Described(fields) && j < |fields| && fields[j].ltype.TSubmessage?
    requires fields[j].atype.Static? && (fields[j].htype.Required? || fields[j].htype.Optional?)
    requires DecMsg(fields, s, m).Ok?
    ensures AsMsg(ValueOf(Get(DecMsg(fields, s, m).value, Offset(fields, j)))) ==
            Merged(fields, s, j, AsMsg(ValueOf(Get(m, Offset(fields, j)))))
  {
    hide DecLoop, Described, Offset, Merged;
    LoopMerges(fields, s, Start(m), j);
  }

  // ---------- required fields ----------

  // The required fields before field j.
  function RequiredIn(fields: seq<Field>, j: nat): set<nat>
    requires j <= |fields|
  {
    set k: nat | k < j && fields[k].htype.Required?
  }

  lemma {:induction false} RequiredCount(fields: seq<Field>, j: nat)
    requires j <= |fields|
    ensures RequiredBefore(fields, j) == |RequiredIn(fields, j)|
  {
    if j > 0 {
      RequiredCount(fields, j - 1);
      var before := RequiredIn(fields, j - 1);
      assert RequiredIn(fields, j) == if fields[j - 1].htype.Required? then before + {j - 1} else before;
    }
  }

  // The first 64 required fields are all missed, and no other.
  lemma RequiredReceived(fields: seq<Field>, s: bytes, m: Message)
    requires forall i, k :: 0 <= i < k < |fields| ==> fields[i].tag != fields[k].tag
    ensures DecMsg(fields, s, m).Ok? <==>
            && DecLoop(fields, s, Start(m)).Done? && FixedDone(fields, DecLoop(fields, s, Start(m)).st)
            && forall j ::
                 0 <= j < |fields| && fields[j].htype.Required? && |RequiredIn(fields, j)| < 64 ==>
                 fields[j].tag in TagsRead(fields, s, Start(m))
  {
    hide DecLoop, TagsRead, RequiredDone, FixedDone;
    if DecLoop(fields, s, Start(m)).Done? {
      MissingIffAbsent(fields, s, m);
      forall j | 0 <= j < |fields|
        ensures Tracked(fields, j) <==>
                fields[j].htype.Required? && |RequiredIn(fields, j)| < 64
      {
        RequiredCount(fields, j);
      }
    }
  }
}
