// Well-formed descriptors, valid structures, and the meaning of a transmission: what a
// receiver with its own descriptor makes of a sender's structure, without any bytes.
module Schema {
  import opened Bits
  import opened Wire
  import opened Fields
  import opened Encoding
  import opened Decoding
  import opened Values

  ghost predicate WellFormedField(f: Field)
    decreases f
  {
    && f.atype.Static? && !f.ltype.TExtension?
    && 1 <= f.tag <= MAX_TAG && f.tag <= PB_SIZE_MAX
    && 1 <= f.dataSize <= DATA_MAX && f.arraySize <= PB_SIZE_MAX
    && (f.htype.Repeated? ==> f.arraySize >= 1)
    && (f.htype.Oneof? ==> f.sizeOffset != 0)
    && (f.ltype.TSubmessage? ==> WellFormed(f.sub))
  }

  // What the generator of descriptors guarantees.
  ghost predicate WellFormed(fields: seq<Field>)
    decreases fields
  {
    && LayoutOk(fields)
    && (forall i, j :: 0 <= i < j < |fields| ==> fields[i].tag != fields[j].tag)
    && (forall i :: 0 <= i < |fields| ==> WellFormedField(fields[i]))
  }

  // What finding fields by tag relies on.
  ghost predicate DistinctTags(fields: seq<Field>) {
    && (forall i, j :: 0 <= i < j < |fields| ==> fields[i].tag != fields[j].tag)
    && (forall i :: 0 <= i < |fields| ==> fields[i].tag != 0 && !fields[i].ltype.TExtension?)
  }

  lemma TagsNonzero(fields: seq<Field>)
    requires WellFormed(fields)
    ensures DistinctTags(fields)
  {
    hide LayoutOk;
    assert forall i :: 0 <= i < |fields| ==> WellFormedField(fields[i]);
  }

  lemma FieldOk(fields: seq<Field>, i: nat)
    requires WellFormed(fields) && i < |fields|
    ensures WellFormedField(fields[i])
  {
  }

  // ---------- structures that can be transmitted ----------

  ghost predicate ValidValue(f: Field, v: Value)
    decreases f, 0
  {
    if f.ltype.TSubmessage? then
      v.VMsg? && Valid(f.sub, v.m) && |EncMsg(f.sub, v.m)| <= LENGTH_MAX
    else ValidScalar(f, v)
  }

  ghost predicate ValidSlot(f: Field, s: Slot)
    decreases f, 1
  {
    match f.htype
    case Required => s.One? && ValidValue(f, s.v)
    case Optional =>
      if f.sizeOffset != 0 then s.Opt? && (s.has ==> ValidValue(f, s.v)) else s.One? && ValidValue(f, s.v)
    case Oneof => s.Union? && (s.which == f.tag ==> ValidValue(f, s.v))
    case Repeated =>
      && (if f.sizeOffset != 0 then s.Many? else s.Fixed? && |s.items| == f.arraySize)
      && |ItemsOf(s)| <= f.arraySize
      && (forall k :: 0 <= k < |ItemsOf(s)| ==> ValidValue(f, ItemsOf(s)[k]))
      && |EncPacked(f, ItemsOf(s))| <= LENGTH_MAX
  }

  ghost predicate Valid(fields: seq<Field>, m: Message)
    decreases fields
  {
    forall i :: 0 <= i < |fields| ==> ValidSlot(fields[i], Get(m, Offset(fields, i)))
  }

  // ---------- two versions of one message type ----------

  // One field in two descriptors. Its submessage type may have changed compatibly.
  ghost predicate SameShape(d: Field, f: Field)
    decreases f
  {
    && d.ltype == f.ltype && d.htype == f.htype && d.tag == f.tag
    && d.arraySize == f.arraySize && (d.sizeOffset == 0 <==> f.sizeOffset == 0)
    && (if f.ltype.TSubmessage? then Compatible(d.sub, f.sub) else d.dataSize == f.dataSize)
  }

  // Fields may be dropped and added; what both know has the same shape, and the
  // receiver requires nothing that the sender does not know.
  ghost predicate Compatible(dst: seq<Field>, src: seq<Field>)
    decreases src
  {
    && (forall i, j :: 0 <= i < |src| && 0 <= j < |dst| && dst[j].tag == src[i].tag ==> SameShape(dst[j], src[i]))
    && (forall j :: 0 <= j < |dst| && dst[j].htype.Required? && RequiredBefore(dst, j) < MAX_REQUIRED_FIELDS ==>
          exists i :: 0 <= i < |src| && src[i].tag == dst[j].tag)
  }

  // ---------- the meaning of a transmission ----------

  // The values of a sender's structure `msg` (fields src) merged into a receiver's
  // structure (fields dst), field by field in the sender's order: scalars replace,
  // submessages merge unless their storage starts anew, arrays grow. None: an array
  // of the receiver is too small.
  function AbsorbValue(d: Field, base: Message, f: Field, v: Value): Option<Value>
    decreases f, 0
  {
    if f.ltype.TSubmessage? then
      match AbsorbFrom(d.sub, base, f.sub, AsMsg(v), 0)
      case Some(m) => Some(VMsg(m))
      case None => None
    else Some(v)
  }

  function AbsorbItems(d: Field, slot: Slot, counter: nat, f: Field, items: seq<Value>): Option<(Slot, nat)>
    decreases f, 1, |items|
  {
    if items == [] then Some((slot, counter))
    else if CountOf(d, slot, counter) >= Capacity(d) then None
    else
      match AbsorbValue(d, BaseMsg(d, slot), f, items[0])
      case None => None
      case Some(v) => AbsorbItems(d, PutItem(d, slot, counter, v), Bump(d, counter), f, items[1..])
  }

  function AbsorbSlot(d: Field, was: Slot, f: Field, s: Slot): Option<Slot>
    decreases f, 2
  {
    if f.htype.Repeated? then
      match AbsorbItems(d, was, 0, f, ItemsOf(s))
      case Some(r) => Some(r.0)
      case None => None
    else
      match AbsorbValue(d, BaseMsg(d, was), f, ValueOf(s))
      case Some(v) => Some(StoreValue(d, was, 0, v))
      case None => None
  }

  function AbsorbFrom(dst: seq<Field>, into: Message, src: seq<Field>, msg: Message, i: nat): Option<Message>
    requires i <= |src|
    decreases src, |src| - i
  {
    if i == |src| then Some(into)
    else
      var s := Get(msg, Offset(src, i));
      match Lookup(dst, src[i].tag)
      case None => AbsorbFrom(dst, into, src, msg, i + 1)
      case Some(j) =>
        if !Present(src[i], s) then AbsorbFrom(dst, into, src, msg, i + 1)
        else
          match AbsorbSlot(FieldAt(dst, j), Get(into, Offset(dst, j)), src[i], s)
          case None => None
          case Some(slot) => AbsorbFrom(dst, into[Offset(dst, j) := slot], src, msg, i + 1)
  }

  function Absorb(dst: seq<Field>, into: Message, src: seq<Field>, msg: Message): Option<Message> {
    AbsorbFrom(dst, into, src, msg, 0)
  }

  // ---------- lookups among distinct tags ----------

  lemma LookupKnown(fields: seq<Field>, j: nat)
    requires j < |fields|
    requires forall i, k :: 0 <= i < k < |fields| ==> fields[i].tag != fields[k].tag
    ensures Lookup(fields, fields[j].tag) == Some(j)
  {
    var r := LookupFrom(fields, fields[j].tag, 0);
    assert r.Some?;
    assert fields[r.value].tag == fields[j].tag;
  }

  lemma LookupTag(fields: seq<Field>, tag: nat)
    requires tag != 0
    ensures Lookup(fields, tag).Some? ==>
      Lookup(fields, tag).value < |fields| && fields[Lookup(fields, tag).value].tag == tag
  {
  }
}
