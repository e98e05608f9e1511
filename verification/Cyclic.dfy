// Message types that contain themselves: descriptors that refer to each other by index.
// Decoding is a function of the number of calls that may be nested; it returns when some
// number is enough. The recursion over submessages is bounded by the input, the one that
// sets them to defaults only by the types.
module Cyclic {
  import opened Bits
  import opened Wire
  import opened Fields
  import opened Encoding
  import opened Decoding
  import opened Schema
  import opened Transfer
  import opened Graphs

  // The fields of a message type, and for each submessage field the index of its type.
  datatype Type = Type(fields: seq<Field>, subs: seq<nat>)

  ghost predicate Table(table: seq<Type>) {
    forall t :: 0 <= t < |table| ==> Entry(table, table[t])
  }

  ghost predicate Entry(table: seq<Type>, t: Type) {
    && |t.subs| == |t.fields| && DistinctTags(t.fields)
    && forall i :: 0 <= i < |t.fields| ==>
         Plain(t.fields[i]) && (t.fields[i].ltype.TSubmessage? ==> t.subs[i] < |table|)
  }

  // Submessages are static or behind pointers, other fields static. The submessage of a
  // field is not in the descriptor itself.
  predicate Plain(f: Field) {
    && (f.atype.Static? || (f.atype.Pointer? && f.ltype.TSubmessage?)) && f.sub == []
    && 1 <= f.tag <= MAX_TAG && f.dataSize <= DATA_MAX
    && (f.htype.Repeated? ==> f.arraySize >= 1 && (f.atype.Pointer? ==> f.sizeOffset != 0))
  }

  lemma Typed(table: seq<Type>, t: nat, i: nat)
    requires Table(table) && t < |table| && i < |table[t].fields|
    ensures Plain(table[t].fields[i]) && |table[t].subs| == |table[t].fields| && DistinctTags(table[t].fields)
    ensures table[t].fields[i].ltype.TSubmessage? ==> table[t].subs[i] < |table|
  {
    hide DistinctTags;
    assert Entry(table, table[t]);
  }

  // ---------- structures ----------

  // What a structure holds: the slots of its fields, and the structures of its submessage
  // fields: the entries of an array, the allocation behind a pointer, or the member itself.
  datatype Node = Node(slots: Message, subs: map<nat, seq<Node>>)

  const EMPTY := Node(map[], map[])

  function Entries(subs: map<nat, seq<Node>>, i: nat): seq<Node> {
    if i in subs then subs[i] else []
  }

  // A static required or optional submessage is part of the structure, and its defaults
  // are set with it.
  predicate Inherits(f: Field) {
    f.ltype.TSubmessage? && f.atype.Static? && (f.htype.Required? || f.htype.Optional?)
  }

  // Any other submessage starts anew: an array entry, a union member or an allocation.
  predicate Restarts(f: Field) {
    f.ltype.TSubmessage? && !Inherits(f)
  }

  // ---------- pb_message_set_to_defaults ----------

  // The defaults of a structure, unless more than `limit` calls are nested.
  function NewNode(table: seq<Type>, u: nat, limit: nat): Option<Node>
    decreases limit, 0
  {
    if limit == 0 || u >= |table| then None else NewUpTo(table, u, |table[u].fields|, limit)
  }

  function NewUpTo(table: seq<Type>, u: nat, i: nat, limit: nat): Option<Node>
    requires u < |table| && i <= |table[u].fields| && limit > 0
    decreases limit - 1, 1, i
  {
    if i == 0 then Some(EMPTY)
    else
      match NewUpTo(table, u, i - 1, limit)
      case None => None
      case Some(node) =>
        var f, offset := table[u].fields[i - 1], Offset(table[u].fields, i - 1);
        var slots := node.slots[offset := DefaultSlot(f, One(VRaw))];
        if Inherits(f) && i - 1 < |table[u].subs| then
          match NewNode(table, table[u].subs[i - 1], limit - 1)
          case None => None
          case Some(sub) => Some(Node(slots, node.subs[i - 1 := [sub]]))
        else Some(Node(slots, node.subs[i - 1 := []]))
  }

  // ---------- decoding ----------

  datatype Outcome<+T> = Good(value: T, n: nat) | Bad | Deep   // Deep: the limit was reached

  // The variables of the loop, submessages apart.
  datatype Loop = Loop(st: State, subs: map<nat, seq<Node>>)

  function Moved<T>(k: nat, r: Outcome<T>): Outcome<T> {
    match r
    case Good(v, n) => Good(v, k + n)
    case Bad => Bad
    case Deep => Deep
  }

  // The entry to decode next.
  function Index(f: Field, entries: seq<Node>, counter: nat): nat {
    if FixedCount(f) then counter else if f.htype.Repeated? then |entries| else 0
  }

  function Put(f: Field, entries: seq<Node>, k: nat, m: Node): seq<Node> {
    if !f.htype.Repeated? then [m] else if k < |entries| then entries[k := m] else entries + [m]
  }

  // The entries of a static array are set to defaults when their block has been found,
  // other submessages that start anew before.
  predicate Late(f: Field) {
    f.htype.Repeated? && f.atype.Static?
  }

  // The structure that a submessage is decoded into.
  function Base(table: seq<Type>, t: nat, i: nat, entries: seq<Node>, limit: nat): Option<Node>
    requires t < |table| && i < |table[t].fields| && i < |table[t].subs| && limit > 0
    decreases limit - 1, 2
  {
    if Restarts(table[t].fields[i]) then NewNode(table, table[t].subs[i], limit - 1)
    else if entries == [] then Some(EMPTY) else Some(entries[0])
  }

  // pb_dec_submessage and what comes before it, for field i.
  function DecSub(table: seq<Type>, t: nat, i: nat, s: bytes, entries: seq<Node>, counter: nat, limit: nat)
    : (r: Outcome<(seq<Node>, nat)>)
    requires t < |table| && i < |table[t].fields| && i < |table[t].subs| && limit > 0
    ensures r.Good? ==> 1 <= r.n <= |s|
    decreases limit - 1, |s| + 1, 1
  {
    var f, k := table[t].fields[i], Index(table[t].fields[i], entries, counter);
    if f.htype.Repeated? && k >= Capacity(f) then Bad
    else
      var base := Base(table, t, i, entries, limit);
      if base.None? && !Late(f) then Deep
      else
        match DecBlock(s)
        case Fail => Bad
        case Ok(data, n) =>
          if base.None? then Deep
          else
            match DecNode(table, table[t].subs[i], data, base.value, limit - 1)
            case Good(m, _) => Good((Put(f, entries, k, m), Bump(f, counter)), n)
            case Bad => Bad
            case Deep => Deep
  }

  // The has-flag or which-tag of a submessage field.
  function Shell(f: Field, slot: Slot): Slot {
    if f.htype.Repeated? then slot else StoreValue(f, slot, 0, VRaw)
  }

  function DecEntry(table: seq<Type>, t: nat, i: nat, wireType: nat, s: bytes, l: Loop, limit: nat)
    : (r: Outcome<Loop>)
    requires t < |table| && i <= |table[t].fields| && limit > 0
    ensures r.Good? ==> 1 <= r.n <= |s|
    decreases limit - 1, |s| + 1, 2
  {
    var fields := table[t].fields;
    if i < |fields| && i < |table[t].subs| && fields[i].ltype.TSubmessage? then
      var f, offset := fields[i], Offset(fields, i);
      match EnterFixed(fields, i, l.st)
      case None => Bad
      case Some(e) =>
        match DecSub(table, t, i, s, Entries(l.subs, i), e.fixedCount, limit)
        case Good(r, n) =>
          var msg := e.msg[offset := Shell(f, Get(e.msg, offset))];
          Good(Loop(State(msg, MarkSeen(fields, i, e.seen), e.fixedField, r.1), l.subs[i := r.0]), n)
        case Bad => Bad
        case Deep => Deep
    else
      match DecKnown(fields, i, wireType, s, l.st)
      case Next(st, n) => Good(Loop(st, l.subs), n)
      case _ => Bad
  }

  // A record after its tag.
  function DecTagged(table: seq<Type>, t: nat, tag: nat, wireType: nat, s: bytes, l: Loop, limit: nat)
    : (r: Outcome<Loop>)
    requires t < |table| && limit > 0
    ensures r.Good? ==> r.n <= |s|
    decreases limit - 1, |s| + 1, 3
  {
    match Lookup(table[t].fields, tag)
    case Some(i) => DecEntry(table, t, i, wireType, s, l, limit)
    case None =>
      match SkipField(wireType, s)
      case Ok(_, n) => Good(l, n)
      case Fail => Bad
  }

  function DecRecords(table: seq<Type>, t: nat, s: bytes, l: Loop, limit: nat): (r: Outcome<Loop>)
    requires t < |table| && limit > 0
    ensures r.Good? ==> r.n <= |s|
    decreases limit - 1, |s| + 1, 4
  {
    if s == [] then Good(l, 0)
    else
      match DecTag(s)
      case BadTag => Bad
      case Terminator(n) => Good(l, n)
      case Tag(tag, wireType, n) =>
        match DecTagged(table, t, tag, wireType, s[n..], l, limit)
        case Good(l', k) => Moved(n + k, DecRecords(table, t, s[n + k..], l', limit))
        case Bad => Bad
        case Deep => Deep
  }

  function Begin(node: Node): Loop {
    Loop(Start(node.slots), node.subs)
  }

  // pb_decode_noinit
  function DecNode(table: seq<Type>, t: nat, s: bytes, node: Node, limit: nat): (r: Outcome<Node>)
    ensures r.Good? ==> r.n <= |s|
    decreases limit, 0
  {
    if limit == 0 || t >= |table| then Deep
    else
      match DecRecords(table, t, s, Begin(node), limit)
      case Good(l, n) =>
        if FixedDone(table[t].fields, l.st) && RequiredDone(table[t].fields, l.st.seen) then
          Good(Node(l.st.msg, l.subs), n)
        else Bad
      case Bad => Bad
      case Deep => Deep
  }

  // pb_decode
  function DecNew(table: seq<Type>, t: nat, s: bytes, limit: nat): (r: Outcome<Node>)
    ensures r.Good? ==> r.n <= |s|
  {
    match NewNode(table, t, limit)
    case Some(node) => DecNode(table, t, s, node, limit)
    case None => Deep
  }
}
