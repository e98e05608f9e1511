// What pb_decode makes of a byte string, as a function of descriptor, input and the
// structure decoded into.
module Decoding {
  import opened Bits
  import opened Wire
  import opened Fields
  import opened Encoding

  datatype Option<+T> = None | Some(value: T)

  // ---------- default values ----------

  function Zero(f: Field): Value {
    match f.ltype
    case TBool => VBool(false)
    case TBytes => VBytes([])
    case TString => VBytes([])
    case TFixedLengthBytes => VBytes(seq(f.dataSize, _ => 0))
    case _ => VInt(0)
  }

  // pb_field_set_to_default writes a count even for an array that has none, over the
  // data itself: so many entries at the front are reached by it.
  function Overwritten(f: Field): nat {
    if f.dataSize == 0 then f.arraySize else (COUNT_BYTES + f.dataSize - 1) / f.dataSize
  }

  // An array with a fixed count is not initialized otherwise.
  function Uninitialized(f: Field, was: seq<Value>): (items: seq<Value>)
    ensures |items| == f.arraySize
  {
    seq(f.arraySize, k requires 0 <= k < f.arraySize => if Overwritten(f) <= k < |was| then was[k] else VRaw)
  }

  function InitValue(f: Field, was: Value): Value
    decreases f, 0
  {
    if f.ltype.TSubmessage? then VMsg(DefaultMsg(f.sub, AsMsg(was))) else f.init
  }

  // pb_field_set_to_default, on a slot that held `was`.
  function DefaultSlot(f: Field, was: Slot): Slot
    decreases f, 1
  {
    match f.htype
    case Required => if f.atype.Pointer? then Opt(false, VRaw) else One(InitValue(f, ValueOf(was)))
    case Optional =>
      if f.atype.Pointer? then Opt(false, VRaw)
      else if f.sizeOffset != 0 then Opt(false, InitValue(f, ValueOf(was))) else One(InitValue(f, ValueOf(was)))
    case Repeated => if f.sizeOffset != 0 then Many([]) else Fixed(Uninitialized(f, ItemsOf(was)))
    case Oneof => Union(0, VRaw)
  }

  function DefaultUpTo(fields: seq<Field>, i: nat, was: Message): Message
    requires i <= |fields|
    decreases fields, i
  {
    if i == 0 then map[]
    else
      var offset := Offset(fields, i - 1);
      DefaultUpTo(fields, i - 1, was)[offset := DefaultSlot(fields[i - 1], Get(was, offset))]
  }

  // pb_message_set_to_defaults, on a structure that held `was`.
  function DefaultMsg(fields: seq<Field>, was: Message): Message
    decreases fields, |fields| + 1
  {
    DefaultUpTo(fields, |fields|, was)
  }

  // ---------- scalars ----------

  // One more than the largest unsigned value of a width in bytes.
  function Modulus(size: nat): nat {
    if size == 1 then 0x100 else if size == 2 then TWO16 else if size == 4 then TWO32 else TWO64
  }

  predicate InSigned(v: int, size: nat) {
    IntWidth(size) && -(Modulus(size) as int) / 2 <= v < Modulus(size) / 2
  }

  predicate InUnsigned(v: int, size: nat) {
    IntWidth(size) && 0 <= v < Modulus(size)
  }

  // The two's complement reading of an unsigned word.
  function AsSigned(v: nat, size: nat): int {
    if v < Modulus(size) / 2 then v else v - Modulus(size)
  }

  // A value read as int64 and stored with data_size bytes; narrow fields keep only the
  // low 32 bits of the varint.
  function SignedValue(v: nat, size: nat): int {
    if size == 8 then AsSigned(v, 8) else AsSigned(v % TWO32, 4)
  }

  function DecInt(f: Field, v: nat): Option<Value> {
    if f.ltype.TUVarint? then
      if InUnsigned(v, f.dataSize) then Some(VInt(v)) else None
    else
      var sv := if f.ltype.TSVarint? then UnZigZag(v) else SignedValue(v, f.dataSize);
      if InSigned(sv, f.dataSize) then Some(VInt(sv)) else None
  }

  // What is stored of a text beyond its contents: the terminator, or the length.
  function Extra(f: Field): nat {
    if f.ltype.TString? then 1 else BYTES_OFFSET
  }

  // The most bytes a string, bytes or inline bytes field takes. Behind a pointer, only
  // the size of the allocation is limited; that of a string is computed in 32 bits.
  predicate Takes(f: Field, size: nat) {
    if f.atype.Pointer? && (f.ltype.TBytes? || f.ltype.TString?) then
      && size + Extra(f) <= SIZE_MAX
      && (if f.ltype.TBytes? then size <= PB_SIZE_MAX else size + 1 < TWO32)
    else
    match f.ltype
    case TBytes => size + BYTES_OFFSET <= f.dataSize
    case TString => size + 1 <= f.dataSize
    case _ => size == 0 || size == f.dataSize
  }

  function Stored(f: Field, data: bytes): Value {
    if f.ltype.TFixedLengthBytes? && data == [] then Zero(f) else VBytes(data)
  }

  function DecScalar(f: Field, s: bytes): (r: Read<Value>)
    ensures r.Ok? ==> 1 <= r.n <= |s|
  {
    match f.ltype
    case TBool => DecBool(s)
    case TVarint => DecNumber(f, s)
    case TUVarint => DecNumber(f, s)
    case TSVarint => DecNumber(f, s)
    case TFixed32 => DecWord(s, 4)
    case TFixed64 => DecWord(s, 8)
    case TBytes => DecData(f, s)
    case TString => DecData(f, s)
    case TFixedLengthBytes => DecData(f, s)
    case TSubmessage => Fail
    case TExtension => Fail
  }

  function DecBool(s: bytes): (r: Read<Value>)
    ensures r.Ok? ==> 1 <= r.n <= |s|
  {
    match DecVarint32(s)
    case Ok(v, n) => Ok(VBool(v != 0), n)
    case Fail => Fail
  }

  function DecNumber(f: Field, s: bytes): (r: Read<Value>)
    ensures r.Ok? ==> 1 <= r.n <= |s|
  {
    match DecVarint(s)
    case Ok(v, n) => (match DecInt(f, v) case Some(x) => Ok(x, n) case None => Fail)
    case Fail => Fail
  }

  function DecWord(s: bytes, width: nat): (r: Read<Value>)
    ensures r.Ok? ==> r.n == width <= |s|
  {
    match Raw(s, width)
    case Ok(data, n) => Ok(VInt(FixedValue(data)), n)
    case Fail => Fail
  }

  function DecData(f: Field, s: bytes): (r: Read<Value>)
    ensures r.Ok? ==> 1 <= r.n <= |s|
  {
    match DecBlock(s)
    case Ok(data, n) => if Takes(f, |data|) then Ok(Stored(f, data), n) else Fail
    case Fail => Fail
  }

  // ---------- one field ----------

  predicate FixedCount(f: Field) {
    f.htype.Repeated? && f.sizeOffset == 0
  }

  ghost predicate NoFixedCount(fields: seq<Field>) {
    forall i :: 0 <= i < |fields| ==> !FixedCount(fields[i])
  }

  // The index of the next entry of an array: its count cell, or the counter that the
  // decoder keeps for an array with a fixed count.
  function CountOf(f: Field, s: Slot, counter: nat): nat {
    if FixedCount(f) then counter else |ItemsOf(s)|
  }

  function PutItem(f: Field, s: Slot, counter: nat, v: Value): Slot {
    if FixedCount(f) then
      if counter < |ItemsOf(s)| then Fixed(ItemsOf(s)[counter := v]) else s
    else Many(ItemsOf(s) + [v])
  }

  function Bump(f: Field, counter: nat): nat {
    if FixedCount(f) then counter + 1 else counter
  }

  // How many entries an array may have; an allocated one can grow as far as its count.
  function Capacity(f: Field): nat {
    if f.atype.Pointer? then PB_SIZE_MAX else f.arraySize
  }

  // A packed run: every byte of it must be used up before the array is full.
  function DecPacked(f: Field, data: bytes, s: Slot, counter: nat): Option<(Slot, nat)>
    decreases |data|
  {
    if data == [] then Some((s, counter))
    else if CountOf(f, s, counter) >= Capacity(f) then None
    else
      match DecScalar(f, data)
      case Ok(v, n) => DecPacked(f, data[n..], PutItem(f, s, counter, v), Bump(f, counter))
      case Fail => None
  }

  function StoreValue(f: Field, s: Slot, counter: nat, v: Value): Slot {
    match f.htype
    case Required => if f.atype.Pointer? then Opt(true, v) else One(v)
    case Optional => if f.atype.Pointer? || f.sizeOffset != 0 then Opt(true, v) else One(v)
    case Repeated => PutItem(f, s, counter, v)
    case Oneof => Union(f.tag, v)
  }

  // The structure a submessage is decoded into: a new array entry, union member or
  // allocation starts from its defaults, in memory that is not followed here; anything
  // else is merged into what is there.
  function BaseMsg(f: Field, s: Slot): Message {
    if f.htype.Repeated? || f.htype.Oneof? || f.atype.Pointer? then DefaultMsg(f.sub, map[]) else AsMsg(ValueOf(s))
  }

  function DecValue(f: Field, s: bytes, slot: Slot): (r: Read<Value>)
    ensures r.Ok? ==> 1 <= r.n <= |s|
    decreases |s|, 0
  {
    if f.ltype.TSubmessage? then
      match DecBlock(s)
      case Ok(data, n) =>
        (match DecMsg(f.sub, data, BaseMsg(f, slot))
         case Ok(m, _) => Ok(VMsg(m), n)
         case Fail => Fail)
      case Fail => Fail
    else DecScalar(f, s)
  }

  // decode_static_field. The wire type only tells packed runs from single entries.
  function DecField(f: Field, wireType: nat, s: bytes, slot: Slot, counter: nat): (r: Read<(Slot, nat)>)
    ensures r.Ok? ==> 1 <= r.n <= |s|
    decreases |s|, 1
  {
    if f.htype.Repeated? && wireType == WT_STRING && Packable(f.ltype) then
      match DecBlock(s)
      case Ok(data, n) =>
        (match DecPacked(f, data, slot, counter)
         case Some(r) => Ok(r, n)
         case None => Fail)
      case Fail => Fail
    else if f.htype.Repeated? && CountOf(f, slot, counter) >= Capacity(f) then Fail
    else
      match DecValue(f, s, slot)
      case Ok(v, n) => Ok((StoreValue(f, slot, counter, v), Bump(f, counter)), n)
      case Fail => Fail
  }

  // ---------- the loop over all fields ----------

  // The entry of a tag among distinct tags. In an empty descriptor, tag zero matches
  // the terminator.
  function Lookup(fields: seq<Field>, tag: nat): (r: Option<nat>)
    ensures r.Some? ==> r.value <= |fields| && FieldAt(fields, r.value).tag == tag
  {
    if fields == [] && tag == 0 then Some(0) else LookupFrom(fields, tag, 0)
  }

  function LookupFrom(fields: seq<Field>, tag: nat, i: nat): (r: Option<nat>)
    requires i <= |fields|
    ensures r.Some? ==> i <= r.value < |fields| && fields[r.value].tag == tag
    ensures r.None? ==> forall j :: i <= j < |fields| ==> fields[j].tag != tag
    decreases |fields| - i
  {
    if i == |fields| then None
    else if fields[i].tag == tag then Some(i)
    else LookupFrom(fields, tag, i + 1)
  }

  // The variables of the loop: the structure, the required fields seen (by required
  // index), and the array with a fixed count that is being received.
  datatype State = State(msg: Message, seen: set<nat>, fixedField: Option<nat>, fixedCount: nat)

  datatype StepResult = Next(st: State, n: nat) | Stop(n: nat) | Error

  datatype Run = Done(st: State, n: nat, stopped: bool) | Failed

  // The array with a fixed count received so far is complete.
  predicate FixedDone(fields: seq<Field>, st: State) {
    st.fixedField.Some? ==>
      st.fixedField.value <= |fields| && st.fixedCount == FieldAt(fields, st.fixedField.value).arraySize
  }

  // A record of array i starts: switching arrays needs the last one to be complete.
  function EnterFixed(fields: seq<Field>, i: nat, st: State): Option<State>
    requires i <= |fields|
  {
    if !FixedCount(FieldAt(fields, i)) || st.fixedField == Some(i) then Some(st)
    else if !FixedDone(fields, st) then None
    else Some(st.(fixedField := Some(i), fixedCount := 0))
  }

  function MarkSeen(fields: seq<Field>, i: nat, seen: set<nat>): set<nat>
    requires i <= |fields|
  {
    var index := RequiredBefore(fields, i);
    if FieldAt(fields, i).htype.Required? && index < MAX_REQUIRED_FIELDS then seen + {index} else seen
  }

  function DecKnown(fields: seq<Field>, i: nat, wireType: nat, s: bytes, st: State): (r: StepResult)
    requires i <= |fields|
    ensures r.Next? ==> 1 <= r.n <= |s|
    ensures !r.Stop?
    decreases |s|, 2
  {
    var f := FieldAt(fields, i);
    var offset := Offset(fields, i);
    match EnterFixed(fields, i, st)
    case None => Error
    case Some(st0) =>
      match DecField(f, wireType, s, Get(st0.msg, offset), st0.fixedCount)
      case Ok((slot, counter), n) =>
        Next(State(st0.msg[offset := slot], MarkSeen(fields, i, st0.seen), st0.fixedField, counter), n)
      case Fail => Error
  }

  function Step(fields: seq<Field>, s: bytes, st: State): (r: StepResult)
    ensures r.Next? ==> 1 <= r.n <= |s|
    ensures r.Stop? ==> 1 <= r.n <= |s|
    decreases |s|, 3
  {
    match DecTag(s)
    case BadTag => Error
    case Terminator(n) => Stop(n)
    case Tag(tag, wireType, n) =>
      match Lookup(fields, tag)
      case Some(i) =>
        (match DecKnown(fields, i, wireType, s[n..], st)
         case Next(st', k) => Next(st', n + k)
         case _ => Error)
      case None =>
        match SkipField(wireType, s[n..])
        case Ok(_, k) => Next(st, n + k)
        case Fail => Error
  }

  function DecLoop(fields: seq<Field>, s: bytes, st: State): (r: Run)
    ensures r.Done? ==> r.n <= |s|
    decreases |s|, 4
  {
    if s == [] then Done(st, 0, false)
    else
      match Step(fields, s, st)
      case Error => Failed
      case Stop(n) => Done(st, n, true)
      case Next(st', n) =>
        match DecLoop(fields, s[n..], st')
        case Done(st2, k, stopped) => Done(st2, n + k, stopped)
        case Failed => Failed
  }

  // The required fields that are tracked all occurred.
  predicate RequiredDone(fields: seq<Field>, seen: set<nat>) {
    forall r :: 0 <= r < RequiredBefore(fields, |fields|) && r < MAX_REQUIRED_FIELDS ==> r in seen
  }

  function Start(m: Message): State {
    State(m, {}, None, 0)
  }

  // pb_decode_noinit
  function DecMsg(fields: seq<Field>, s: bytes, m: Message): (r: Read<Message>)
    ensures r.Ok? ==> r.n <= |s|
    decreases |s|, 5
  {
    match DecLoop(fields, s, Start(m))
    case Failed => Fail
    case Done(st, n, _) =>
      if FixedDone(fields, st) && RequiredDone(fields, st.seen) then Ok(st.msg, n) else Fail
  }

  // pb_decode, into a structure that held `was`.
  function Decode(fields: seq<Field>, s: bytes, was: Message): (r: Read<Message>)
    ensures r.Ok? ==> r.n <= |s|
  {
    DecMsg(fields, s, DefaultMsg(fields, was))
  }
}
