// Records with tag zero for empty message types: when the structure suffers from them.
module EmptyTypes {
  import opened Wire
  import opened Fields
  import opened Encoding
  import opened Decoding
  import opened Records
  import opened Schema
  import opened RoundTrip
  import opened Framing
  import Order

  // ---------- the records that count ----------

  // A record for field i, and its contents if that is a submessage.
  datatype Received = Received(i: nat, body: bytes)

  function Payload(f: Field, s: bytes): bytes {
    if f.ltype.TSubmessage? && DecBlock(s).Ok? then DecBlock(s).value else []
  }

  // The record at the front, if some field has its tag.
  function Front(fields: seq<Field>, s: bytes): seq<Received> {
    match DecTag(s)
    case Tag(tag, _, n) =>
      (match Lookup(fields, tag)
       case Some(i) => [Received(i, Payload(FieldAt(fields, i), s[n..]))]
       case None => [])
    case _ => []
  }

  // The records in s for fields of the type, up to a zero tag between records.
  function Receipts(fields: seq<Field>, s: bytes): seq<Received>
    decreases |s|
  {
    if s == [] then []
    else
      match RecordLength(fields, s)
      case Some(n) => Front(fields, s) + Receipts(fields, s[n..])
      case None => Front(fields, s)
  }

  predicate SameUnion(fields: seq<Field>, i: nat, k: nat)
    requires i < |fields|
  {
    k < |fields| && Leader(fields, k) == Leader(fields, i)
  }

  // The contents received for field i: in a oneof only those of the last record of the
  // union.
  function Kept(fields: seq<Field>, i: nat, rs: seq<Received>): seq<bytes>
    requires i < |fields|
  {
    if rs == [] then []
    else Keep(fields, i, Kept(fields, i, rs[..|rs| - 1]), rs[|rs| - 1])
  }

  function Keep(fields: seq<Field>, i: nat, before: seq<bytes>, r: Received): seq<bytes>
    requires i < |fields|
  {
    if r.i == i then (if fields[i].htype.Oneof? then [] else before) + [r.body]
    else if SameUnion(fields, i, r.i) then []
    else before
  }

  // The records of several blocks for one submessage.
  function Joined(fields: seq<Field>, blocks: seq<bytes>): seq<Received> {
    if blocks == [] then []
    else Joined(fields, blocks[..|blocks| - 1]) + Receipts(fields, blocks[|blocks| - 1])
  }

  // The entries of an array with a fixed count, which starts over when it is full, and how
  // many were received since it last did.
  function Entries(f: Field, blocks: seq<bytes>): (map<nat, bytes>, nat) {
    if blocks == [] then (map[], 0)
    else
      var (entries, n) := Entries(f, blocks[..|blocks| - 1]);
      var k := if n == f.arraySize then 0 else n;
      (entries[k := blocks[|blocks| - 1]], k + 1)
  }

  // Some record that counts in the end is for an empty message type: it has tag zero.
  ghost predicate Spoilt(fields: seq<Field>, rs: seq<Received>)
    decreases fields
  {
    if fields == [] then rs != []
    else exists i :: 0 <= i < |fields| && SpoiltField(fields[i], Kept(fields, i, rs))
  }

  ghost predicate SpoiltField(f: Field, blocks: seq<bytes>)
    decreases f
  {
    f.ltype.TSubmessage? &&
    if !f.htype.Repeated? then Spoilt(f.sub, Joined(f.sub, blocks))
    else if FixedCount(f) then
      exists k :: k in Entries(f, blocks).0 && Spoilt(f.sub, Receipts(f.sub, Entries(f, blocks).0[k]))
    else exists k :: 0 <= k < |blocks| && Spoilt(f.sub, Receipts(f.sub, blocks[k]))
  }

  // ---------- well-typed but for such records ----------

  // Arrays with a fixed count are received whole.
  ghost predicate Complete(fields: seq<Field>, rs: seq<Received>) {
    forall i :: 0 <= i < |fields| && fields[i].ltype.TSubmessage? && FixedCount(fields[i]) ==>
      AtEnd(fields[i], Kept(fields, i, rs))
  }

  predicate AtEnd(f: Field, blocks: seq<bytes>) {
    var n := Entries(f, blocks).1;
    n == 0 || n == f.arraySize
  }

  ghost predicate TypedBut(fields: seq<Field>, rs: seq<Received>, m: Message)
    decreases fields
  {
    if fields == [] then m == map[] <==> rs == []
    else
      && (forall i :: 0 <= i < |fields| ==>
            Offset(fields, i) in m && SlotBut(fields[i], Kept(fields, i, rs), m[Offset(fields, i)]))
      && (forall o :: o in m ==> exists i :: 0 <= i < |fields| && Offset(fields, i) == o)
  }

  ghost predicate SlotBut(f: Field, blocks: seq<bytes>, s: Slot)
    decreases f, 2
  {
    if !f.ltype.TSubmessage? then TypedSlot(f, s)
    else
      match f.htype
      case Required => s.One? && ValueBut(f, Joined(f.sub, blocks), s.v)
      case Optional => (if f.sizeOffset != 0 then s.Opt? else s.One?) && ValueBut(f, Joined(f.sub, blocks), ValueOf(s))
      case Oneof =>
        && s.Union? && (blocks != [] ==> s.which == f.tag)
        && (s.which == f.tag ==> ValueBut(f, Joined(f.sub, blocks), s.v))
      case Repeated =>
        if f.sizeOffset != 0 then s.Many? && |s.items| <= f.arraySize && ItemsBut(f, blocks, s.items)
        else s.Fixed? && |s.items| == f.arraySize && EntriesBut(f, Entries(f, blocks).0, s.items)
  }

  // The last entries are those received.
  ghost predicate ItemsBut(f: Field, blocks: seq<bytes>, items: seq<Value>)
    decreases f, 1
  {
    && |blocks| <= |items|
    && (forall k :: 0 <= k < |items| - |blocks| ==> TypedItem(f, items[k]))
    && (forall k :: 0 <= k < |blocks| ==>
          ValueBut(f, Receipts(f.sub, blocks[k]), items[|items| - |blocks| + k]))
  }

  ghost predicate EntriesBut(f: Field, entries: map<nat, bytes>, items: seq<Value>)
    decreases f, 1
  {
    forall k :: 0 <= k < |items| ==>
      if k in entries then ValueBut(f, Receipts(f.sub, entries[k]), items[k]) else TypedItem(f, items[k])
  }

  ghost predicate ValueBut(f: Field, rs: seq<Received>, v: Value)
    decreases f, 0
  {
    v.VMsg? && Complete(f.sub, rs) && TypedBut(f.sub, rs, v.m)
  }

  // ---------- before any record ----------

  lemma {:induction false} TypedBefore(fields: seq<Field>, m: Message)
    requires Typed(fields, m)
    ensures TypedBut(fields, [], m) && Complete(fields, [])
    decreases fields
  {
    hide TypedSlot, SlotBut, Offset;
    if fields == [] {
      assert forall o :: o !in m;
    } else {
      forall i | 0 <= i < |fields|
        ensures SlotBut(fields[i], [], m[Offset(fields, i)])
      {
        SlotBefore(fields[i], m[Offset(fields, i)]);
      }
    }
  }

  lemma {:induction false} SlotBefore(f: Field, s: Slot)
    requires TypedSlot(f, s)
    ensures SlotBut(f, [], s)
    decreases f
  {
    if f.ltype.TSubmessage? {
      if f.htype.Repeated? {
        ArrayTyped(f, s);
        NothingReceived(f, s.items);
      } else if f.htype.Oneof? ==> s.which == f.tag {
        TypedBefore(f.sub, ValueOf(s).m);
      }
    }
  }

  lemma ArrayTyped(f: Field, s: Slot)
    requires f.htype.Repeated?
    ensures TypedSlot(f, s) <==>
            && (if f.sizeOffset != 0 then s.Many? && |s.items| <= f.arraySize else s.Fixed? && |s.items| == f.arraySize)
            && forall k :: 0 <= k < |s.items| ==> TypedItem(f, s.items[k])
  {
    if s.Many? || s.Fixed? { assert ItemsOf(s) == s.items; }
  }

  lemma NothingReceived(f: Field, items: seq<Value>)
    requires forall k :: 0 <= k < |items| ==> TypedItem(f, items[k])
    ensures ItemsBut(f, [], items) && EntriesBut(f, map[], items)
  {
  }

  // ---------- what suffers ----------

  lemma {:induction false} NoneSpoilt(fields: seq<Field>)
    ensures !Spoilt(fields, [])
    decreases fields
  {
    forall i | 0 <= i < |fields| && fields[i].ltype.TSubmessage?
      ensures !SpoiltField(fields[i], [])
    {
      NoneSpoilt(fields[i].sub);
    }
  }

  lemma {:induction false} EntriesBelow(f: Field, blocks: seq<bytes>)
    requires f.arraySize >= 1
    ensures Entries(f, blocks).1 <= f.arraySize
    ensures forall k :: k in Entries(f, blocks).0 ==> k < f.arraySize
  {
    if blocks != [] { EntriesBelow(f, blocks[..|blocks| - 1]); }
  }

  // Such a structure is well-typed exactly when no record that counts has tag zero in an
  // empty message type.
  lemma {:induction false} TypedUnlessSpoilt(fields: seq<Field>, rs: seq<Received>, m: Message)
    requires WellFormed(fields) && TypedBut(fields, rs, m)
    ensures Typed(fields, m) <==> !Spoilt(fields, rs)
    decreases fields
  {
    hide TypedSlot, SlotBut, SpoiltField, Offset, WellFormedField, LayoutOk;
    if fields == [] {
      if m != map[] { var o :| o in m; }
    } else {
      forall i | 0 <= i < |fields|
        ensures TypedSlot(fields[i], m[Offset(fields, i)]) <==> !SpoiltField(fields[i], Kept(fields, i, rs))
      {
        FieldOk(fields, i);
        SlotUnlessSpoilt(fields[i], Kept(fields, i, rs), m[Offset(fields, i)]);
      }
    }
  }

  lemma {:induction false} SlotUnlessSpoilt(f: Field, blocks: seq<bytes>, s: Slot)
    requires WellFormedField(f) && SlotBut(f, blocks, s)
    ensures TypedSlot(f, s) <==> !SpoiltField(f, blocks)
    decreases f, 2
  {
    hide Typed, TypedBut, Complete, Spoilt, WellFormed;
    if f.ltype.TSubmessage? {
      if f.htype.Repeated? { ArrayTyped(f, s); }
      if !f.htype.Repeated? {
        if f.htype.Oneof? && s.which != f.tag {
          NoneSpoilt(f.sub);
        } else {
          TypedUnlessSpoilt(f.sub, Joined(f.sub, blocks), ValueOf(s).m);
        }
      } else if f.sizeOffset != 0 {
        ItemsUnlessSpoilt(f, blocks, s.items);
      } else {
        EntriesUnlessSpoilt(f, blocks, s.items);
      }
    }
  }

  lemma {:induction false} ItemsUnlessSpoilt(f: Field, blocks: seq<bytes>, items: seq<Value>)
    requires WellFormedField(f) && f.ltype.TSubmessage? && ItemsBut(f, blocks, items)
    ensures (forall k :: 0 <= k < |items| ==> TypedItem(f, items[k])) <==>
            (forall k :: 0 <= k < |blocks| ==> !Spoilt(f.sub, Receipts(f.sub, blocks[k])))
    decreases f, 1
  {
    hide Typed, TypedBut, Complete, Spoilt, WellFormed;
    var first := |items| - |blocks|;
    forall k | 0 <= k < |blocks|
      ensures TypedItem(f, items[first + k]) <==> !Spoilt(f.sub, Receipts(f.sub, blocks[k]))
    {
      TypedUnlessSpoilt(f.sub, Receipts(f.sub, blocks[k]), items[first + k].m);
    }
    if forall k :: 0 <= k < |blocks| ==> !Spoilt(f.sub, Receipts(f.sub, blocks[k])) {
      forall k | first <= k < |items|
        ensures TypedItem(f, items[k])
      {
        assert !Spoilt(f.sub, Receipts(f.sub, blocks[k - first]));
      }
    }
  }

  lemma {:induction false} EntriesUnlessSpoilt(f: Field, blocks: seq<bytes>, items: seq<Value>)
    requires WellFormedField(f) && f.ltype.TSubmessage? && f.htype.Repeated? && |items| == f.arraySize
    requires EntriesBut(f, Entries(f, blocks).0, items)
    ensures var entries := Entries(f, blocks).0;
            (forall k :: 0 <= k < |items| ==> TypedItem(f, items[k])) <==>
            (forall k :: k in entries ==> !Spoilt(f.sub, Receipts(f.sub, entries[k])))
    decreases f, 1
  {
    hide Typed, TypedBut, Complete, Spoilt, WellFormed;
    var entries := Entries(f, blocks).0;
    EntriesBelow(f, blocks);
    forall k | k in entries
      ensures TypedItem(f, items[k]) <==> !Spoilt(f.sub, Receipts(f.sub, entries[k]))
    {
      TypedUnlessSpoilt(f.sub, Receipts(f.sub, entries[k]), items[k].m);
    }
  }

  // ---------- one record ----------

  // The index that the next entry of an array with a fixed count gets.
  function NextEntry(f: Field, blocks: seq<bytes>): nat {
    var n := Entries(f, blocks).1;
    if n == f.arraySize then 0 else n
  }

  function Grown(f: Field, blocks: seq<bytes>, block: bytes): seq<bytes> {
    (if f.htype.Oneof? then [] else blocks) + [block]
  }

  lemma {:induction false} FieldBut(f: Field, wireType: nat, s: bytes, slot: Slot, c: nat, blocks: seq<bytes>)
    requires SoundField(f) && SlotBut(f, blocks, slot) && DecField(f, wireType, s, slot, c).Ok?
    requires f.ltype.TSubmessage? && FixedCount(f) ==> c == NextEntry(f, blocks)
    ensures SlotBut(f, Grown(f, blocks, Payload(f, s)), DecField(f, wireType, s, slot, c).value.0)
    ensures f.htype.Oneof? ==> DecField(f, wireType, s, slot, c).value.0.Union?
    ensures f.htype.Oneof? ==> DecField(f, wireType, s, slot, c).value.0.which == f.tag
    ensures f.ltype.TSubmessage? && FixedCount(f) ==>
              DecField(f, wireType, s, slot, c).value.1 == Entries(f, Grown(f, blocks, Payload(f, s))).1
    decreases |s|, 1
  {
    hide DecBlock, DecMsg, Sound, TypedBut, Complete, DefaultMsg, DecScalar, DecPacked, Receipts, Joined, TypedSlot,
      TypedItem;
    if f.ltype.TSubmessage? {
      SubmessageBut(f, s, slot, blocks);
      var v := DecValue(f, s, slot).value;
      var after := Grown(f, blocks, Payload(f, s));
      assert after[..|after| - 1] == (if f.htype.Oneof? then [] else blocks) && after[|after| - 1] == Payload(f, s);
      if f.htype.Repeated? {
        ItemBut(f, slot, c, blocks, Payload(f, s), v);
      }
    } else {
      FieldTyped(f, wireType, s, slot, c);
    }
  }

  // The submessage of a record.
  lemma {:induction false} SubmessageBut(f: Field, s: bytes, slot: Slot, blocks: seq<bytes>)
    requires SoundField(f) && SlotBut(f, blocks, slot) && DecValue(f, s, slot).Ok? && f.ltype.TSubmessage?
    ensures var v := DecValue(f, s, slot).value;
            ValueBut(f, if f.htype.Repeated? then Receipts(f.sub, Payload(f, s))
                        else Joined(f.sub, Grown(f, blocks, Payload(f, s))), v)
    decreases |s|, 0
  {
    hide DecBlock, DecMsg, Sound, TypedBut, Complete, DefaultMsg, Receipts, TypedSlot, TypedItem;
    var block := DecBlock(s).value;
    if f.htype.Repeated? || f.htype.Oneof? {
      DefaultTyped(f.sub, map[]);
      TypedBefore(f.sub, BaseMsg(f, slot));
      MsgBut(f.sub, block, BaseMsg(f, slot), []);
      assert [] + Receipts(f.sub, block) == Receipts(f.sub, block);
      assert Joined(f.sub, [block]) == Receipts(f.sub, block);
    } else {
      MsgBut(f.sub, block, BaseMsg(f, slot), Joined(f.sub, blocks));
      assert (blocks + [block])[..|blocks|] == blocks;
    }
  }

  lemma ItemBut(f: Field, slot: Slot, c: nat, blocks: seq<bytes>, block: bytes, v: Value)
    requires f.ltype.TSubmessage? && f.htype.Repeated? && f.atype.Static? && SlotBut(f, blocks, slot)
    requires CountOf(f, slot, c) < f.arraySize && ValueBut(f, Receipts(f.sub, block), v)
    requires FixedCount(f) ==> c == NextEntry(f, blocks)
    ensures SlotBut(f, blocks + [block], PutItem(f, slot, c, v))
    ensures FixedCount(f) ==> c + 1 == Entries(f, blocks + [block]).1
  {
    hide ValueBut, TypedItem, Receipts;
    var after := blocks + [block];
    assert after[..|after| - 1] == blocks && after[|after| - 1] == block;
    if FixedCount(f) {
      assert Entries(f, after) == (Entries(f, blocks).0[c := block], c + 1);
    } else {
      var items := ItemsOf(slot) + [v];
      assert ItemsBut(f, after, items) by {
        forall k | 0 <= k < |after|
          ensures ValueBut(f, Receipts(f.sub, after[k]), items[|items| - |after| + k])
        {
          if k < |blocks| { assert after[k] == blocks[k]; }
        }
      }
    }
  }

  lemma {:induction false} MsgBut(fields: seq<Field>, s: bytes, m: Message, rs: seq<Received>)
    requires Sound(fields) && TypedBut(fields, rs, m) && Complete(fields, rs) && DecMsg(fields, s, m).Ok?
    ensures TypedBut(fields, rs + Receipts(fields, s), DecMsg(fields, s, m).value)
    ensures Complete(fields, rs + Receipts(fields, s))
    decreases |s|, 5
  {
    hide DecLoop, TypedBut, Sound, Receipts, Kept, Entries;
    LoopBut(fields, s, Start(m), rs);
  }

  // In the loop the counter is that of the current array.
  ghost predicate Counting(fields: seq<Field>, rs: seq<Received>, st: State) {
    forall i :: 0 <= i < |fields| && fields[i].ltype.TSubmessage? && FixedCount(fields[i]) ==>
      if st.fixedField == Some(i) then st.fixedCount == Entries(fields[i], Kept(fields, i, rs)).1
      else AtEnd(fields[i], Kept(fields, i, rs))
  }

  lemma {:induction false} LoopBut(fields: seq<Field>, s: bytes, st: State, rs: seq<Received>)
    requires Sound(fields) && TypedBut(fields, rs, st.msg) && Counting(fields, rs, st) && DecLoop(fields, s, st).Done?
    ensures var after := rs + Receipts(fields, s);
            TypedBut(fields, after, DecLoop(fields, s, st).st.msg) && Counting(fields, after, DecLoop(fields, s, st).st)
    decreases |s|, 4
  {
    hide Step, TypedBut, Sound, Counting, Front, RecordLength;
    if s == [] {
      assert rs + Receipts(fields, s) == rs;
    } else if Step(fields, s, st).Next? {
      var r, front := Step(fields, s, st), Front(fields, s);
      StepTakes(fields, s, st);
      StepBut(fields, s, st, rs);
      LoopBut(fields, s[r.n..], r.st, rs + front);
      assert rs + front + Receipts(fields, s[r.n..]) == rs + Receipts(fields, s);
    } else {
      StopsFree(fields, s, st);
      assert rs + Receipts(fields, s) == rs;
    }
  }

  lemma StopsFree(fields: seq<Field>, s: bytes, st: State)
    requires Step(fields, s, st).Stop?
    ensures Front(fields, s) == [] && RecordLength(fields, s).None?
  {
    hide DecTag, Lookup, DecKnown, Wire.SkipField;
  }

  lemma {:induction false} StepBut(fields: seq<Field>, s: bytes, st: State, rs: seq<Received>)
    requires Sound(fields) && TypedBut(fields, rs, st.msg) && Counting(fields, rs, st) && Step(fields, s, st).Next?
    ensures var after := rs + Front(fields, s);
            TypedBut(fields, after, Step(fields, s, st).st.msg) && Counting(fields, after, Step(fields, s, st).st)
    decreases |s|, 3
  {
    hide DecTag, DecKnown, TypedBut, Sound, Wire.SkipField, Counting, Payload;
    var tag := DecTag(s);
    var known := Lookup(fields, tag.tag);
    if known.Some? {
      SoundParts(fields);
      KnownIndex(fields, tag.tag);
      KnownBut(fields, known.value, tag.wireType, s[tag.n..], st, rs);
    } else {
      assert rs + Front(fields, s) == rs;
    }
  }

  lemma KnownIndex(fields: seq<Field>, tag: nat)
    requires WellFormed(fields) && Lookup(fields, tag).Some?
    ensures fields != [] ==> Lookup(fields, tag).value < |fields|
  {
    hide LayoutOk, WellFormedField;
  }

  lemma {:induction false} KnownBut(fields: seq<Field>, i: nat, wireType: nat, s: bytes, st: State, rs: seq<Received>)
    requires Sound(fields) && i <= |fields| && (fields != [] ==> i < |fields|)
    requires TypedBut(fields, rs, st.msg) && Counting(fields, rs, st) && DecKnown(fields, i, wireType, s, st).Next?
    ensures var after := rs + [Received(i, Payload(FieldAt(fields, i), s))];
            TypedBut(fields, after, DecKnown(fields, i, wireType, s, st).st.msg) &&
            Counting(fields, after, DecKnown(fields, i, wireType, s, st).st)
    decreases |s|, 2
  {
    hide DecField, SlotBut, Offset, Sound, RequiredBefore, Payload, Entries, Kept;
    if fields == [] {
      NoFieldBut(i, wireType, s, st, rs);
    } else {
      var e, o := EnterFixed(fields, i, st).value, Offset(fields, i);
      var body, c := Payload(fields[i], s), e.fixedCount;
      var r := DecField(fields[i], wireType, s, Get(st.msg, o), c).value;
      FieldsSound(fields, i);
      SoundParts(fields);
      HasSlot(fields, rs, st.msg, i);
      Entered(fields, i, wireType, s, st, rs);
      FieldBut(fields[i], wireType, s, Get(st.msg, o), c, Kept(fields, i, rs));
      SlotChanged(fields, i, st.msg, rs, body, r.0);
      Counted(fields, i, wireType, s, st, rs, body);
    }
  }

  lemma NoFieldBut(i: nat, wireType: nat, s: bytes, st: State, rs: seq<Received>)
    requires i == 0 && DecKnown([], i, wireType, s, st).Next?
    ensures var after := rs + [Received(i, Payload(FieldAt([], i), s))];
            TypedBut([], after, DecKnown([], i, wireType, s, st).st.msg) &&
            Counting([], after, DecKnown([], i, wireType, s, st).st)
  {
    hide DecField, Payload;
    assert Offset([], 0) in DecKnown([], i, wireType, s, st).st.msg;
  }

  lemma HasSlot(fields: seq<Field>, rs: seq<Received>, m: Message, i: nat)
    requires TypedBut(fields, rs, m) && i < |fields|
    ensures Offset(fields, i) in m && SlotBut(fields[i], Kept(fields, i, rs), m[Offset(fields, i)])
  {
    hide SlotBut, Offset;
  }

  lemma KeptNext(fields: seq<Field>, i: nat, rs: seq<Received>, r: Received)
    requires i < |fields|
    ensures Kept(fields, i, rs + [r]) == Keep(fields, i, Kept(fields, i, rs), r)
  {
    assert (rs + [r])[..|rs|] == rs;
  }

  // One slot has changed, for all members of its union.
  lemma SlotChanged(fields: seq<Field>, i: nat, m: Message, rs: seq<Received>, body: bytes, slot: Slot)
    requires WellFormed(fields) && LayoutOk(fields) && i < |fields| && TypedBut(fields, rs, m)
    requires SlotBut(fields[i], Grown(fields[i], Kept(fields, i, rs), body), slot)
    requires fields[i].htype.Oneof? ==> slot.Union? && slot.which == fields[i].tag
    ensures TypedBut(fields, rs + [Received(i, body)], m[Offset(fields, i) := slot])
  {
    hide SlotBut, Offset, Kept, LayoutOk, Leader, WellFormed;
    var o, r := Offset(fields, i), Received(i, body);
    forall k | 0 <= k < |fields|
      ensures SlotBut(fields[k], Kept(fields, k, rs + [r]), m[o := slot][Offset(fields, k)])
    {
      KeptNext(fields, k, rs, r);
      StorageDisjoint(fields, i, k);
      if k != i && Offset(fields, k) == o {
        if i < k { LeaderShared(fields, i, k); } else { LeaderShared(fields, k, i); }
        OtherBut(fields, i, k, slot);
      }
    }
  }

  lemma OtherBut(fields: seq<Field>, i: nat, k: nat, slot: Slot)
    requires WellFormed(fields) && i < |fields| && k < |fields| && i != k
    requires fields[k].htype.Oneof? && slot.Union? && slot.which == fields[i].tag
    ensures SlotBut(fields[k], [], slot)
  {
    hide LayoutOk, WellFormedField, ValueBut, TypedValue;
  }

  // The counter is where the next entry goes.
  lemma Entered(fields: seq<Field>, i: nat, wireType: nat, s: bytes, st: State, rs: seq<Received>)
    requires i < |fields| && fields[i].atype.Static? && Counting(fields, rs, st) && EnterFixed(fields, i, st).Some?
    requires var c := EnterFixed(fields, i, st).value.fixedCount;
             DecField(fields[i], wireType, s, Get(st.msg, Offset(fields, i)), c).Ok?
    ensures fields[i].ltype.TSubmessage? && FixedCount(fields[i]) ==>
              EnterFixed(fields, i, st).value.fixedCount == NextEntry(fields[i], Kept(fields, i, rs))
  {
    hide Kept, Entries, DecBlock, DecPacked, DecValue, Offset;
  }

  lemma Counted(fields: seq<Field>, i: nat, wireType: nat, s: bytes, st: State, rs: seq<Received>, body: bytes)
    requires i < |fields| && Counting(fields, rs, st) && DecKnown(fields, i, wireType, s, st).Next?
    requires var c := EnterFixed(fields, i, st).value.fixedCount;
             fields[i].ltype.TSubmessage? && FixedCount(fields[i]) ==>
               DecField(fields[i], wireType, s, Get(st.msg, Offset(fields, i)), c).value.1 ==
               Entries(fields[i], Grown(fields[i], Kept(fields, i, rs), body)).1
    ensures Counting(fields, rs + [Received(i, body)], DecKnown(fields, i, wireType, s, st).st)
  {
    hide DecField, Kept, Entries, Offset, Leader, MarkSeen;
    var c := EnterFixed(fields, i, st).value.fixedCount;
    if !FixedCount(fields[i]) { Order.CounterKept(fields[i], wireType, s, Get(st.msg, Offset(fields, i)), c); }
    forall k | 0 <= k < |fields| && fields[k].ltype.TSubmessage? && FixedCount(fields[k])
      ensures Kept(fields, k, rs + [Received(i, body)]) ==
              if k == i then Grown(fields[i], Kept(fields, i, rs), body) else Kept(fields, k, rs)
    {
      KeptNext(fields, k, rs, Received(i, body));
      if k != i && Leader(fields, k) == Leader(fields, i) {
        if i < k { LeaderShared(fields, i, k); } else { LeaderShared(fields, k, i); }
      }
    }
  }

  // ---------- whole runs ----------

  // A well-typed structure is well-typed afterwards exactly when no record that counts has
  // tag zero in an empty message type.
  lemma TypedIff(fields: seq<Field>, s: bytes, m: Message)
    requires Sound(fields) && Typed(fields, m) && DecMsg(fields, s, m).Ok?
    ensures Typed(fields, DecMsg(fields, s, m).value) <==> !Spoilt(fields, Receipts(fields, s))
  {
    hide DecMsg, Typed, TypedBut, Spoilt, Complete, Receipts, WellFormed, Initialized;
    TypedBefore(fields, m);
    MsgBut(fields, s, m, []);
    assert [] + Receipts(fields, s) == Receipts(fields, s);
    TypedUnlessSpoilt(fields, Receipts(fields, s), DecMsg(fields, s, m).value);
  }

  // The same of pb_decode.
  lemma DecodeTypedIff(fields: seq<Field>, s: bytes, was: Message)
    requires Sound(fields) && Typed(fields, was) && Decode(fields, s, was).Ok?
    ensures Typed(fields, Decode(fields, s, was).value) <==> !Spoilt(fields, Receipts(fields, s))
  {
    hide DecMsg, Typed, Sound, Spoilt, Receipts, DefaultMsg;
    DefaultTyped(fields, was);
    TypedIff(fields, s, DefaultMsg(fields, was));
  }

  // ---------- where every record counts ----------

  // A submessage in a oneof is started anew by the next record for the union, and an entry
  // of an array with a fixed count can be written again.
  predicate Replaced(f: Field) {
    f.ltype.TSubmessage? && (f.htype.Oneof? || FixedCount(f))
  }

  // Submessages that were received stay, at every depth.
  ghost predicate Lasting(fields: seq<Field>)
    decreases fields
  {
    forall i :: 0 <= i < |fields| ==>
      !Replaced(fields[i]) && (fields[i].ltype.TSubmessage? ==> Lasting(fields[i].sub))
  }

  // One record of the type, if it counts, spoils the structure.
  ghost predicate Spoils(fields: seq<Field>, r: Received) {
    fields == [] ||
    (r.i < |fields| && fields[r.i].ltype.TSubmessage? && Spoilt(fields[r.i].sub, Receipts(fields[r.i].sub, r.body)))
  }

  lemma {:induction false} SpoiltNext(fields: seq<Field>, rs: seq<Received>, r: Received)
    requires WellFormed(fields) && Lasting(fields)
    ensures Spoilt(fields, rs + [r]) <==> Spoilt(fields, rs) || Spoils(fields, r)
    decreases fields, 1
  {
    hide SpoiltField, Kept, WellFormedField, LayoutOk, Lasting, Receipts;
    if fields != [] {
      forall i | 0 <= i < |fields|
        ensures SpoiltField(fields[i], Kept(fields, i, rs + [r])) <==>
                SpoiltField(fields[i], Kept(fields, i, rs)) || (r.i == i && Spoils(fields, r))
      {
        LastingField(fields, i);
        KeptLasting(fields, i, rs, r);
        if r.i == i && fields[i].ltype.TSubmessage? {
          BlocksNext(fields[i], Kept(fields, i, rs), r.body);
        } else if !fields[i].ltype.TSubmessage? {
          OnlySubmessages(fields[i], Kept(fields, i, rs));
          OnlySubmessages(fields[i], Kept(fields, i, rs + [r]));
        }
      }
      SpoiltUnfold(fields, rs);
      SpoiltUnfold(fields, rs + [r]);
    }
  }

  lemma SpoiltUnfold(fields: seq<Field>, rs: seq<Received>)
    requires fields != []
    ensures Spoilt(fields, rs) <==> exists i :: 0 <= i < |fields| && SpoiltField(fields[i], Kept(fields, i, rs))
  {
  }

  lemma OnlySubmessages(f: Field, blocks: seq<bytes>)
    requires !f.ltype.TSubmessage?
    ensures !SpoiltField(f, blocks)
  {
  }

  lemma LastingField(fields: seq<Field>, i: nat)
    requires WellFormed(fields) && Lasting(fields) && i < |fields|
    ensures var f := fields[i]; !Replaced(f) && (f.ltype.TSubmessage? ==> WellFormed(f.sub) && Lasting(f.sub))
  {
    assert WellFormedField(fields[i]);
  }

  lemma KeptLasting(fields: seq<Field>, i: nat, rs: seq<Received>, r: Received)
    requires i < |fields| && (fields[i].ltype.TSubmessage? ==> !fields[i].htype.Oneof?)
    ensures fields[i].ltype.TSubmessage? ==>
              Kept(fields, i, rs + [r]) == if r.i == i then Kept(fields, i, rs) + [r.body] else Kept(fields, i, rs)
  {
    hide Leader;
    KeptNext(fields, i, rs, r);
    if r.i != i && SameUnion(fields, i, r.i) {
      if i < r.i { LeaderShared(fields, i, r.i); } else { LeaderShared(fields, r.i, i); }
    }
  }

  lemma {:induction false} BlocksNext(f: Field, blocks: seq<bytes>, block: bytes)
    requires f.ltype.TSubmessage? && !Replaced(f) && WellFormed(f.sub) && Lasting(f.sub)
    ensures SpoiltField(f, blocks + [block]) <==>
            SpoiltField(f, blocks) || Spoilt(f.sub, Receipts(f.sub, block))
    decreases f
  {
    hide Spoilt, WellFormed, Lasting, Receipts;
    var after := blocks + [block];
    assert after[..|after| - 1] == blocks && after[|after| - 1] == block;
    if f.htype.Repeated? {
      assert forall k :: 0 <= k < |blocks| ==> after[k] == blocks[k];
    } else {
      SpoiltJoin(f.sub, Joined(f.sub, blocks), Receipts(f.sub, block));
    }
  }

  lemma {:induction false} SpoiltJoin(fields: seq<Field>, rs: seq<Received>, more: seq<Received>)
    requires WellFormed(fields) && Lasting(fields)
    ensures Spoilt(fields, rs + more) <==> Spoilt(fields, rs) || Spoilt(fields, more)
    decreases fields, 2, |more|
  {
    hide Spoilt, WellFormed, Lasting, Spoils;
    if more == [] {
      NoneSpoilt(fields);
      assert rs + more == rs;
    } else {
      var before, r := more[..|more| - 1], more[|more| - 1];
      SpoiltJoin(fields, rs, before);
      SpoiltNext(fields, rs + before, r);
      SpoiltNext(fields, before, r);
      assert rs + more == (rs + before) + [r] && more == before + [r];
    }
  }

  // Where submessages that were received stay, every record counts.
  lemma {:induction false} SpoiltIfLasting(fields: seq<Field>, s: bytes)
    requires WellFormed(fields) && Lasting(fields)
    ensures Spoilt(fields, Receipts(fields, s)) <==> !NoZeroTag(fields, s)
    decreases |s|, 1
  {
    hide Spoilt, WellFormed, Lasting, Front, ZeroFree, RecordLength;
    if s == [] {
      NoneSpoilt(fields);
    } else {
      FrontSpoilt(fields, s);
      if RecordLength(fields, s).Some? {
        var rest := s[RecordLength(fields, s).value..];
        SpoiltIfLasting(fields, rest);
        SpoiltJoin(fields, Front(fields, s), Receipts(fields, rest));
      }
    }
  }

  lemma {:induction false} FrontSpoilt(fields: seq<Field>, s: bytes)
    requires WellFormed(fields) && Lasting(fields) && s != []
    ensures Spoilt(fields, Front(fields, s)) <==> !ZeroFree(fields, s)
    decreases |s|, 0
  {
    hide Spoilt, WellFormed, Lasting, DecTag, Lookup, DecBlock, NoZeroTag, Receipts;
    NoneSpoilt(fields);
    var tag := DecTag(s);
    if tag.Tag? && Lookup(fields, tag.tag).Some? {
      var i := Lookup(fields, tag.tag).value;
      var f, body := FieldAt(fields, i), s[tag.n..];
      KnownIndex(fields, tag.tag);
      SpoiltNext(fields, [], Front(fields, s)[0]);
      assert [] + Front(fields, s) == Front(fields, s) == [Received(i, Payload(f, body))];
      if fields != [] && f.ltype.TSubmessage? {
        LastingField(fields, i);
        if DecBlock(body).Ok? {
          SpoiltIfLasting(f.sub, DecBlock(body).value);
        } else {
          NothingIn(f.sub);
        }
      }
    } else {
      NoZero(fields, s);
    }
  }

  lemma NothingIn(fields: seq<Field>)
    ensures !Spoilt(fields, Receipts(fields, []))
  {
    NoneSpoilt(fields);
  }

  lemma NoZero(fields: seq<Field>, s: bytes)
    requires DecTag(s).Tag? ==> Lookup(fields, DecTag(s).tag).None?
    ensures ZeroFree(fields, s)
  {
    hide DecTag;
  }

  // ---------- a record that is replaced ----------

  // Any record of a oneof with an empty message type.
  lemma UnionKnown(f: Field, body: bytes, block: bytes, n: nat, st: State)
    requires f == Field(1, Static, Oneof, TSubmessage, 0, 1, 1, 0, [], VInt(0))
    requires DecBlock(body) == Ok(block, n) && DecMsg([], block, map[]).Ok?
    ensures var v := VMsg(DecMsg([], block, map[]).value);
            DecKnown([f], 0, 2, body, st) ==
            Next(State(st.msg[0 := Union(1, v)], st.seen, st.fixedField, st.fixedCount), n)
  {
    hide DecMsg, DecBlock, DecTag, RequiredBefore;
    assert Offset([f], 0) == 0 && FieldAt([f], 0) == f && MarkSeen([f], 0, st.seen) == st.seen;
    assert DefaultMsg([], map[]) == map[];
    var value := DecValue(f, body, Get(st.msg, 0));
    var field := DecField(f, 2, body, Get(st.msg, 0), st.fixedCount);
  }

  lemma UnionStep(f: Field, s: bytes, body: bytes, block: bytes, n: nat, st: State)
    requires f == Field(1, Static, Oneof, TSubmessage, 0, 1, 1, 0, [], VInt(0))
    requires |s| >= 1 && DecTag(s) == Tag(1, 2, 1) && s[1..] == body && DecBlock(body) == Ok(block, n)
    requires DecMsg([], block, map[]).Ok?
    ensures var v := VMsg(DecMsg([], block, map[]).value);
            Step([f], s, st) == Next(State(st.msg[0 := Union(1, v)], st.seen, st.fixedField, st.fixedCount), 1 + n)
  {
    hide DecMsg, DecBlock, DecTag, DecKnown;
    assert Lookup([f], 1) == Some(0);
    UnionKnown(f, body, block, n, st);
  }

  // Two records of a oneof: the first has a zero tag inside, the second makes up for it.
  lemma LaterRecordMends()
    ensures var f := Field(1, Static, Oneof, TSubmessage, 0, 1, 1, 0, [], VInt(0));
            var s, m := [10, 2, 1, 1, 10, 0], map[0 := Union(0, VRaw)];
            && DecMsg([f], s, m) == Ok(map[0 := Union(1, VMsg(map[]))], 6)
            && Typed([f], m) && Typed([f], map[0 := Union(1, VMsg(map[]))]) && !NoZeroTag([f], s)
  {
    hide DecMsg, DecTag, DecBlock, Step, NoZeroTag, Typed;
    var f := Field(1, Static, Oneof, TSubmessage, 0, 1, 1, 0, [], VInt(0));
    var m: Message, s: bytes, second: bytes := map[0 := Union(0, VRaw)], [10, 2, 1, 1, 10, 0], [10, 0];
    var block: bytes, none: bytes := [1, 1], [];
    MendedBytes(s, second, block, none);
    EmptyRecord(block);
    UnionStep(f, s, s[1..], block, 3, Start(m));
    var st := Step([f], s, Start(m)).st;
    UnionStep(f, second, second[1..], none, 1, st);
    MendedRun(f, s, second, m, st);
    assert Lookup([f], 1) == Some(0);
    OuterZero(f, s, s[1..], block);
    MendedTyped(f);
  }

  lemma MendedBytes(s: bytes, second: bytes, block: bytes, none: bytes)
    requires s == [10, 2, 1, 1, 10, 0] && second == [10, 0] && block == [1, 1] && none == []
    ensures s[4..] == second && second[2..] == none
    ensures DecTag(s) == Tag(1, 2, 1) && DecBlock(s[1..]) == Ok(block, 3)
    ensures DecTag(second) == Tag(1, 2, 1) && DecBlock(second[1..]) == Ok(none, 1)
    ensures DecMsg([], none, map[]) == Ok(map[], 0)
  {
    var body: bytes, zero: bytes := [2, 1, 1, 10, 0], [0];
    assert s[1..] == body && body[1..3] == block && second[1..] == zero && zero[1..1] == none;
    var run := DecLoop([], none, Start(map[]));
    assert run == Done(Start(map[]), 0, false);
  }

  lemma MendedRun(f: Field, s: bytes, second: bytes, m: Message, st: State)
    requires |s| == 6 && s[4..] == second && |second| == 2 && second[2..] == [] && f.htype.Oneof?
    requires m.Keys == {0} && st.msg.Keys == {0} && st.fixedField.None?
    requires Step([f], s, Start(m)) == Next(st, 4)
    requires Step([f], second, st) ==
             Next(State(st.msg[0 := Union(1, VMsg(map[]))], st.seen, st.fixedField, st.fixedCount), 2)
    ensures DecMsg([f], s, m) == Ok(map[0 := Union(1, VMsg(map[]))], 6)
  {
    hide Step;
    var none: bytes, last := [], State(st.msg[0 := Union(1, VMsg(map[]))], st.seen, st.fixedField, st.fixedCount);
    assert DecLoop([f], none, last) == Done(last, 0, false);
    assert DecLoop([f], second, st) == Done(last, 2, false);
    assert DecLoop([f], s, Start(m)) == Done(last, 6, false);
    assert last.msg == map[0 := Union(1, VMsg(map[]))];
    assert RequiredBefore([f], 0) == 0 && RequiredBefore([f], 1) == 0;
  }

  lemma MendedTyped(f: Field)
    requires f == Field(1, Static, Oneof, TSubmessage, 0, 1, 1, 0, [], VInt(0))
    ensures Typed([f], map[0 := Union(0, VRaw)]) && Typed([f], map[0 := Union(1, VMsg(map[]))])
  {
    var none: Message := map[];
    assert Typed([], none) && Offset([f], 0) == 0 && [f][0] == f;
    assert TypedValue(f, VMsg(none));
    assert TypedSlot(f, Union(0, VRaw)) && TypedSlot(f, Union(1, VMsg(none)));
  }
}
