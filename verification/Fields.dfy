// Field descriptors (pb.h), the layout of message structures they describe, and the
// circular field iterator (pb_common.c).
module Fields {
  import opened Wire

  // The width of pb_size_t is a build parameter: 8, 16 or 32 bits.
  type FieldSizeLimit = n: nat | n == 0xFF || n == 0xFFFF || n == 0xFFFF_FFFF witness 0xFF
  const PB_SIZE_MAX: FieldSizeLimit
  const BYTES_OFFSET: nat := if PB_SIZE_MAX == 0xFF then 1 else if PB_SIZE_MAX == 0xFFFF then 2 else 4
  const COUNT_BYTES: nat := BYTES_OFFSET   // sizeof(pb_size_t)
  const DATA_MAX: nat := if PB_SIZE_MAX < SIZE_MAX then PB_SIZE_MAX else SIZE_MAX   // of a sizeof in a pb_size_t
  type PointerSize = n: nat | n == 2 || n == 4 || n == 8 witness 2
  const POINTER_SIZE: PointerSize

  const MAX_REQUIRED_FIELDS: nat := 64
  const MAX_TAG: nat := 0x1FFF_FFFF

  datatype AType = Static | Pointer | Callback
  datatype HType = Required | Optional | Repeated | Oneof
  datatype LType =
    | TBool | TVarint | TUVarint | TSVarint | TFixed32 | TFixed64
    | TBytes | TString | TSubmessage | TExtension | TFixedLengthBytes

  // The content of a structure, keyed by the offset of the member: what the decoder
  // writes and the encoder reads. The has-flag, count or which-tag of a member is kept
  // with its data; entries of an array past its count are not represented.
  type Message = map<nat, Slot>

  datatype Slot =
    | One(v: Value)                 // required, or proto3 singular
    | Opt(has: bool, v: Value)      // optional with a has-flag, or behind a pointer
    | Many(items: seq<Value>)       // repeated, |items| being the count
    | Fixed(items: seq<Value>)      // repeated with a fixed count
    | Union(which: nat, v: Value)   // oneof: the tag in effect and the shared storage

  datatype Value =
    | VBool(b: bool)
    | VInt(i: int)
    | VBytes(bs: bytes)             // bytes, strings up to their terminator, inline bytes
    | VMsg(m: Message)
    | VRaw                          // whatever the memory held, where nothing was written

  // pb_field_t. `sub` are the fields of a submessage, `init` the default of another field.
  datatype Field = Field(
    tag: nat, atype: AType, htype: HType, ltype: LType,
    dataOffset: nat, sizeOffset: int, dataSize: nat, arraySize: nat,
    sub: seq<Field>, init: Value)

  const LAST_FIELD := Field(0, Static, Required, TBool, 0, 0, 0, 0, [], VBool(false))

  // Entry i of a descriptor array, whose last entry is the terminator.
  function FieldAt(fields: seq<Field>, i: nat): Field
    requires i <= |fields|
  {
    if i < |fields| then fields[i] else LAST_FIELD
  }

  // ---------- structure layout ----------

  predicate SharesUnion(prev: Field, cur: Field) {
    prev.htype.Oneof? && cur.htype.Oneof? && cur.dataOffset == PB_SIZE_MAX
  }

  // Bytes a field occupies in its structure.
  function Extent(f: Field): nat {
    if f.atype.Static? && f.htype.Repeated? then f.dataSize * f.arraySize
    else if f.atype.Pointer? then POINTER_SIZE
    else f.dataSize
  }

  predicate Continues(fields: seq<Field>, i: nat)
    requires i < |fields|
  {
    i > 0 && SharesUnion(fields[i - 1], fields[i])
  }

  // The struct offset of field i.
  function Offset(fields: seq<Field>, i: nat): nat
    requires i <= |fields|
  {
    if i == 0 then FieldAt(fields, 0).dataOffset
    else if i == |fields| then 0
    else if Continues(fields, i) then Offset(fields, i - 1)
    else Offset(fields, i - 1) + Extent(fields[i - 1]) + fields[i].dataOffset
  }

  // The struct offset of the has-flag, count or which-tag of field i.
  function SizeAddress(fields: seq<Field>, i: nat): int
    requires i <= |fields|
  {
    if 0 < i < |fields| && Continues(fields, i) then SizeAddress(fields, i - 1)
    else Offset(fields, i) + FieldAt(fields, i).sizeOffset
  }

  function RequiredBefore(fields: seq<Field>, i: nat): (n: nat)
    requires i <= |fields|
    ensures n <= i
  {
    if i == 0 then 0
    else RequiredBefore(fields, i - 1) + (if fields[i - 1].htype.Required? then 1 else 0)
  }

  // The end of the storage of field i and of the union members before it.
  function RunEnd(fields: seq<Field>, i: nat): nat
    requires i < |fields|
  {
    var end := Offset(fields, i) + Extent(fields[i]);
    if Continues(fields, i) && RunEnd(fields, i - 1) > end then RunEnd(fields, i - 1) else end
  }

  // The first member of the union that field i belongs to, or i itself.
  function Leader(fields: seq<Field>, i: nat): (l: nat)
    requires i < |fields|
    ensures l <= i
  {
    if Continues(fields, i) then Leader(fields, i - 1) else i
  }

  // A field that follows a union starts behind the largest member of the union.
  ghost predicate LayoutOk(fields: seq<Field>) {
    && (forall i :: 0 <= i < |fields| ==> Extent(fields[i]) > 0)
    && (forall i :: 0 < i < |fields| && !Continues(fields, i) ==> RunEnd(fields, i - 1) <= Offset(fields, i))
  }

  lemma {:induction false} SameUnionSameOffset(fields: seq<Field>, i: nat)
    requires i < |fields|
    ensures Offset(fields, i) == Offset(fields, Leader(fields, i))
  {
    if Continues(fields, i) { SameUnionSameOffset(fields, i - 1); }
  }

  lemma {:induction false} LaterRun(fields: seq<Field>, i: nat, j: nat)
    requires LayoutOk(fields) && i < j < |fields| && Leader(fields, i) < Leader(fields, j)
    ensures Offset(fields, i) + Extent(fields[i]) <= Offset(fields, j)
    decreases j
  {
    hide Extent, SharesUnion, RunEnd;
    if Continues(fields, j) {
      LaterRun(fields, i, j - 1);
    } else {
      RunCovers(fields, i, j - 1);
      assert RunEnd(fields, j - 1) <= Offset(fields, j);
    }
  }

  lemma {:induction false} RunCovers(fields: seq<Field>, i: nat, j: nat)
    requires LayoutOk(fields) && i <= j < |fields|
    ensures Offset(fields, i) + Extent(fields[i]) <= RunEnd(fields, j)
    decreases j
  {
    if i < j {
      RunCovers(fields, i, j - 1);
      if !Continues(fields, j) {
        assert RunEnd(fields, j - 1) <= Offset(fields, j);
      }
    }
  }

  lemma {:induction false} LeaderMonotone(fields: seq<Field>, i: nat, j: nat)
    requires i <= j < |fields|
    ensures Leader(fields, i) <= Leader(fields, j)
    decreases j
  {
    if i < j { LeaderMonotone(fields, i, j - 1); }
  }

  // Two fields have the same offset exactly when they are members of one union; other
  // fields occupy disjoint bytes.
  lemma StorageDisjoint(fields: seq<Field>, i: nat, j: nat)
    requires LayoutOk(fields) && i < |fields| && j < |fields|
    ensures Offset(fields, i) == Offset(fields, j) <==> Leader(fields, i) == Leader(fields, j)
    ensures Leader(fields, i) < Leader(fields, j) ==>
            Offset(fields, i) + Extent(fields[i]) <= Offset(fields, j)
  {
    SameUnionSameOffset(fields, i);
    SameUnionSameOffset(fields, j);
    if Leader(fields, i) < Leader(fields, j) {
      if j <= i { LeaderMonotone(fields, j, i); }
      LaterRun(fields, i, j);
    } else if Leader(fields, j) < Leader(fields, i) {
      if i <= j { LeaderMonotone(fields, i, j); }
      LaterRun(fields, j, i);
    }
  }

  // Entry k of a static array lies inside the bytes of its field.
  lemma EntryInside(f: Field, k: nat)
    requires f.atype.Static? && f.htype.Repeated? && k < f.arraySize
    ensures f.dataSize * k + f.dataSize <= Extent(f)
  {
    assert f.dataSize * (k + 1) <= f.dataSize * f.arraySize;
  }

  lemma {:induction false} RequiredMonotone(fields: seq<Field>, i: nat, j: nat)
    requires i < j <= |fields| && fields[i].htype.Required?
    ensures RequiredBefore(fields, i) < RequiredBefore(fields, j)
    decreases j
  {
    if i < j - 1 { RequiredMonotone(fields, i, j - 1); }
  }
}
