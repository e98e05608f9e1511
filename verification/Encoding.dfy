// What pb_encode writes for a message, as a function of descriptor and structure.
module Encoding {
  import opened Bits
  import opened Wire
  import opened Fields

  // ---------- reading a structure ----------

  // A structure matching its descriptor has every member; the defaults are never used.
  function Get(m: Message, offset: nat): Slot {
    if offset in m then m[offset] else One(VInt(0))
  }

  function AsBool(v: Value): bool { v.VBool? && v.b }
  function AsInt(v: Value): int { if v.VInt? then v.i else 0 }
  function AsBytes(v: Value): bytes { if v.VBytes? then v.bs else [] }
  function AsMsg(v: Value): Message { if v.VMsg? then v.m else map[] }

  function ValueOf(s: Slot): Value {
    match s
    case One(v) => v
    case Opt(_, v) => v
    case Union(_, v) => v
    case _ => VInt(0)
  }

  function ItemsOf(s: Slot): seq<Value> {
    match s
    case Many(items) => items
    case Fixed(items) => items
    case _ => []
  }

  // The bytes before the first NUL.
  function UpToNul(s: bytes): (r: bytes)
    ensures r <= s
    ensures 0 !in r
    ensures 0 !in s ==> r == s
  {
    if s == [] || s[0] == 0 then [] else [s[0]] + UpToNul(s[1..])
  }

  // ---------- values ----------

  predicate Packable(l: LType) {
    l.TBool? || l.TVarint? || l.TUVarint? || l.TSVarint? || l.TFixed32? || l.TFixed64?
  }

  function WireTypeOf(l: LType): nat {
    match l
    case TBool => WT_VARINT
    case TVarint => WT_VARINT
    case TUVarint => WT_VARINT
    case TSVarint => WT_VARINT
    case TFixed32 => WT_32BIT
    case TFixed64 => WT_64BIT
    case _ => WT_STRING
  }

  function EncScalar(f: Field, v: Value): bytes {
    match f.ltype
    case TBool => EncVarint(if AsBool(v) then 1 else 0)
    case TVarint => EncVarint(AsInt(v) % TWO64)
    case TUVarint => EncVarint(AsInt(v) % TWO64)
    case TSVarint => EncVarint(ZigZag(AsInt(v)) % TWO64)
    case TFixed32 => EncFixed(AsInt(v) % TWO32, 4)
    case TFixed64 => EncFixed(AsInt(v) % TWO64, 8)
    case TBytes => EncBlock(AsBytes(v))
    case TString => EncBlock(UpToNul(AsBytes(v)))
    case TFixedLengthBytes => EncBlock(AsBytes(v))
    case _ => []
  }

  function EncValue(f: Field, v: Value): bytes
    decreases f, 0
  {
    if f.ltype.TSubmessage? then EncBlock(EncMsg(f.sub, AsMsg(v))) else EncScalar(f, v)
  }

  function EncRecord(f: Field, v: Value): bytes
    decreases f, 1
  {
    EncTag(WireTypeOf(f.ltype), f.tag) + EncValue(f, v)
  }

  // ---------- arrays ----------

  function EncRecords(f: Field, items: seq<Value>): bytes
    decreases f, 2, |items|
  {
    if items == [] then [] else EncRecord(f, items[0]) + EncRecords(f, items[1..])
  }

  function EncPacked(f: Field, items: seq<Value>): bytes {
    if items == [] then [] else EncScalar(f, items[0]) + EncPacked(f, items[1..])
  }

  function EncArray(f: Field, items: seq<Value>): bytes
    decreases f, 3
  {
    if items == [] then []
    else if Packable(f.ltype) then EncTag(WT_STRING, f.tag) + EncBlock(EncPacked(f, items))
    else EncRecords(f, items)
  }

  // ---------- fields and messages ----------

  // pb_check_proto3_default_value: the field would not be transmitted.
  predicate IsDefault(f: Field, s: Slot)
    decreases f, 1
  {
    match f.htype
    case Required => false
    case Repeated => f.sizeOffset != 0 && |ItemsOf(s)| == 0
    case Oneof => s.Union? ==> s.which == 0
    case Optional => if f.sizeOffset != 0 then s.Opt? ==> !s.has else IsZero(f, ValueOf(s))
  }

  predicate IsZero(f: Field, v: Value)
    decreases f, 0
  {
    match f.ltype
    case TBool => !AsBool(v)
    case TBytes => |AsBytes(v)| == 0
    case TString => |UpToNul(AsBytes(v))| == 0
    case TFixedLengthBytes => f.dataSize == 0
    case TSubmessage => AllDefault(f.sub, AsMsg(v), 0)
    case _ => AsInt(v) == 0
  }

  predicate AllDefault(fields: seq<Field>, m: Message, i: nat)
    requires i <= |fields|
    decreases fields, |fields| - i
  {
    i == |fields| || (IsDefault(fields[i], Get(m, Offset(fields, i))) && AllDefault(fields, m, i + 1))
  }

  predicate Present(f: Field, s: Slot) {
    match f.htype
    case Required => true
    case Optional => if f.sizeOffset != 0 then s.Opt? && s.has else !IsZero(f, ValueOf(s))
    case Repeated => |ItemsOf(s)| > 0
    case Oneof => s.Union? && s.which == f.tag
  }

  function EncField(f: Field, s: Slot): bytes
    decreases f, 4
  {
    if f.htype.Repeated? then EncArray(f, ItemsOf(s))
    else if Present(f, s) then EncRecord(f, ValueOf(s))
    else []
  }

  function EncFrom(fields: seq<Field>, m: Message, i: nat): bytes
    requires i <= |fields|
    decreases fields, |fields| - i
  {
    if i == |fields| then []
    else EncField(fields[i], Get(m, Offset(fields, i))) + EncFrom(fields, m, i + 1)
  }

  function EncMsg(fields: seq<Field>, m: Message): bytes
    decreases fields, |fields| + 1
  {
    EncFrom(fields, m, 0)
  }

  // ---------- when the encoder reports no error ----------

  predicate IntWidth(size: nat) { size == 1 || size == 2 || size == 4 || size == 8 }

  predicate Encodable(f: Field, v: Value)
    decreases f, 0
  {
    match f.ltype
    case TVarint => IntWidth(f.dataSize)
    case TUVarint => IntWidth(f.dataSize)
    case TSVarint => IntWidth(f.dataSize)
    case TBytes => |AsBytes(v)| + BYTES_OFFSET <= f.dataSize
    case TSubmessage => EncodableFrom(f.sub, AsMsg(v), 0)
    case TExtension => false
    case _ => true
  }

  predicate EncodableField(f: Field, s: Slot)
    decreases f, 1
  {
    if f.htype.Repeated? then
      |ItemsOf(s)| <= f.arraySize && forall k :: 0 <= k < |ItemsOf(s)| ==> Encodable(f, ItemsOf(s)[k])
    else Present(f, s) ==> Encodable(f, ValueOf(s))
  }

  predicate EncodableFrom(fields: seq<Field>, m: Message, i: nat)
    requires i <= |fields|
    decreases fields, |fields| - i
  {
    i == |fields| || (EncodableField(fields[i], Get(m, Offset(fields, i))) && EncodableFrom(fields, m, i + 1))
  }
}
