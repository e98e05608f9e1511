// The bytes of the destination that decoding may write: those of the fields that the
// records are for, at every level of nesting.
module Footprint {
  import opened Wire
  import opened Fields
  import opened Layout
  import opened Encoding
  import opened Decoding
  import opened Records
  import opened Schema

  // ---------- descriptors that fit their structures ----------

  // What is stored for a value has the size of the member.
  predicate WidthFits(f: Field) {
    match f.ltype
    case TBool => f.dataSize == 1
    case TFixed32 => f.dataSize == 4
    case TFixed64 => f.dataSize == 8
    case TBytes => f.dataSize >= COUNT_BYTES
    case TExtension => false
    case _ => true
  }

  // The bytes of a value in a member; numbers are little-endian.
  function Image(f: Field, v: Value): bytes {
    match v
    case VBool(b) => [if b then 1 else 0]
    case VInt(i) => EncFixed(i % Modulus(f.dataSize), f.dataSize)
    case VBytes(bs) =>
      if f.ltype.TBytes? then EncFixed(|bs|, COUNT_BYTES) + bs
      else if f.ltype.TString? then bs + [0]
      else bs
    case _ => []
  }

  // The default value is one of the member.
  predicate InitFits(f: Field) {
    !f.init.VMsg? && |Image(f, f.init)| <= f.dataSize
  }

  // The fields lie apart inside `size` bytes, each entry of a submessage field is as large
  // as the structure in it, and default counts stay inside.
  ghost predicate Fits(fields: seq<Field>, size: nat)
    decreases fields
  {
    Separate(fields, size) && DistinctTags(fields) && forall i :: 0 <= i < |fields| ==> FitsField(fields[i])
  }

  ghost predicate FitsField(f: Field)
    decreases f
  {
    && f.atype.Static? && 1 <= f.tag <= PB_SIZE_MAX && 1 <= f.dataSize <= DATA_MAX && f.arraySize <= PB_SIZE_MAX
    && WidthFits(f) && DefaultInside(f)
    && (if f.ltype.TSubmessage? then Fits(f.sub, f.dataSize) else InitFits(f))
  }

  // pb_field_set_to_default writes a count at pSize even where pSize is the data itself.
  predicate DefaultInside(f: Field) {
    FixedCount(f) ==> COUNT_BYTES <= Extent(f)
  }

  // The bytes that the default count of an array covers.
  predicate InDefaultCount(f: Field, cell: int, x: int) {
    f.htype.Repeated? && cell <= x < cell + COUNT_BYTES
  }

  predicate InCell(f: Field, cell: int, x: int) {
    cell <= x < cell + CellSize(f)
  }

  predicate InData(f: Field, data: int, x: int) {
    data <= x < data + Extent(f)
  }

  predicate InField(fields: seq<Field>, i: nat, base: nat, x: int)
    requires i < |fields|
  {
    InCell(fields[i], base + SizeAddress(fields, i), x) || InData(fields[i], base + Offset(fields, i), x)
  }

  // The default count of an array stays inside its own bytes exactly when the array has
  // a count or is at least as large as one.
  lemma DefaultCountInside(fields: seq<Field>, i: nat, base: nat)
    requires i < |fields| && fields[i].htype.Repeated? && fields[i].atype.Static? && !Continues(fields, i)
    ensures (forall x: int :: InDefaultCount(fields[i], base + SizeAddress(fields, i), x) ==>
              InField(fields, i, base, x))
            <==> fields[i].sizeOffset != 0 || fields[i].dataSize * fields[i].arraySize >= COUNT_BYTES
  {
    var f := fields[i];
    assert SizeAddress(fields, i) == Offset(fields, i) + f.sizeOffset;
    hide Offset, SizeAddress;
    if f.sizeOffset == 0 && Extent(f) < COUNT_BYTES {
      var x := base + Offset(fields, i) + Extent(f);
      assert InDefaultCount(f, base + SizeAddress(fields, i), x) && !InField(fields, i, base, x);
    }
  }

  // One bool with a fixed count, where counts take more than a byte: the write reaches
  // the byte behind the structure.
  lemma DefaultCountOutside()
    requires COUNT_BYTES > 1
    ensures var fields := [Field(1, Static, Repeated, TBool, 0, 0, 1, 1, [], VBool(false))];
            Separate(fields, 1) && InDefaultCount(fields[0], SizeAddress(fields, 0), 1) && !DefaultInside(fields[0])
  {
    var fields := [Field(1, Static, Repeated, TBool, 0, 0, 1, 1, [], VBool(false))];
    assert Offset(fields, 0) == 0;
  }

  // ---------- what a run may write ----------

  // x is written when the records of s are decoded into the structure at `base`: the cell
  // and the data of the fields they are for; inside a required or optional submessage
  // only what its own records are for. In an empty message type a record with tag zero
  // has the terminator for its field, a bool at the start of the structure.
  ghost predicate Touched(fields: seq<Field>, s: bytes, base: nat, x: int)
    decreases |s|, 2
  {
    s != [] &&
    (TouchedRecord(fields, s, base, x) ||
     (RecordLength(fields, s).Some? && Touched(fields, s[RecordLength(fields, s).value..], base, x)))
  }

  ghost predicate TouchedRecord(fields: seq<Field>, s: bytes, base: nat, x: int)
    decreases |s|, 1
  {
    match DecTag(s)
    case Tag(tag, _, n) =>
      (match Lookup(fields, tag)
       case Some(i) =>
         if i == |fields| then x == base
         else TouchedField(fields[i], s[n..], base + Offset(fields, i), base + SizeAddress(fields, i), x)
       case None => false)
    case _ => false
  }

  ghost predicate TouchedField(f: Field, s: bytes, data: nat, cell: int, x: int)
    decreases |s|, 3
  {
    || InCell(f, cell, x)
    || (if f.ltype.TSubmessage? && (f.htype.Required? || f.htype.Optional?) then
          DecBlock(s).Ok? && Touched(f.sub, DecBlock(s).value, data, x)
        else InData(f, data, x))
  }

  // The tags of the records in s.
  function Tags(fields: seq<Field>, s: bytes): seq<nat>
    decreases |s|
  {
    if s == [] || !DecTag(s).Tag? then []
    else [DecTag(s).tag] + (match RecordLength(fields, s)
                            case Some(n) => Tags(fields, s[n..])
                            case None => [])
  }

  lemma FieldFits(fields: seq<Field>, size: nat, i: nat)
    requires Fits(fields, size) && i < |fields|
    ensures FitsField(fields[i]) && Separate(fields, size) && DistinctTags(fields)
    ensures Offset(fields, i) + Extent(fields[i]) <= size
    ensures 0 <= SizeAddress(fields, i) && SizeAddress(fields, i) + CellSize(fields[i]) <= size
    ensures Extent(fields[i]) > 0
    ensures CellSize(fields[i]) > 0 ==>
              Apart(SizeAddress(fields, i), CellSize(fields[i]), Offset(fields, i), Extent(fields[i]))
  {
    hide Offset, SizeAddress, FitsField, CellSize, Extent;
  }

  // A run writes inside its structure only, however deep its submessages are.
  lemma {:induction false} TouchedInside(fields: seq<Field>, size: nat, s: bytes, base: nat, x: int)
    requires Fits(fields, size) && size >= 1 && Touched(fields, s, base, x)
    ensures base <= x < base + size
    decreases |s|, 2
  {
    hide DecTag, RecordLength, Fits, TouchedRecord;
    if TouchedRecord(fields, s, base, x) {
      RecordInside(fields, size, s, base, x);
    } else {
      TouchedInside(fields, size, s[RecordLength(fields, s).value..], base, x);
    }
  }

  lemma {:induction false} RecordInside(fields: seq<Field>, size: nat, s: bytes, base: nat, x: int)
    requires Fits(fields, size) && size >= 1 && TouchedRecord(fields, s, base, x)
    ensures base <= x < base + size
    decreases |s|, 1
  {
    hide DecTag, Fits, Offset, SizeAddress, FitsField, TouchedField, Extent, CellSize, DistinctTags, Separate;
    var tag := DecTag(s);
    var i := Lookup(fields, tag.tag).value;
    if i < |fields| {
      FieldFits(fields, size, i);
      FieldInside(fields[i], s[tag.n..], base + Offset(fields, i), base + SizeAddress(fields, i), x);
    }
  }

  lemma {:induction false} FieldInside(f: Field, s: bytes, data: nat, cell: int, x: int)
    requires FitsField(f) && TouchedField(f, s, data, cell, x)
    ensures InCell(f, cell, x) || InData(f, data, x)
    decreases |s|, 3
  {
    hide DecBlock, Fits, Touched;
    if f.ltype.TSubmessage? && (f.htype.Required? || f.htype.Optional?) && !InCell(f, cell, x) {
      TouchedInside(f.sub, f.dataSize, DecBlock(s).value, data, x);
    }
  }

  // Every byte that is written belongs to a field that a record is for.
  lemma {:induction false} TouchedAddressed(fields: seq<Field>, size: nat, s: bytes, base: nat, x: int) returns (i: nat)
    requires Fits(fields, size) && fields != [] && Touched(fields, s, base, x)
    ensures i < |fields| && fields[i].tag in Tags(fields, s) && InField(fields, i, base, x)
    decreases |s|
  {
    hide DecTag, RecordLength, Fits, Offset, SizeAddress, InField;
    if TouchedRecord(fields, s, base, x) {
      i := RecordAddressed(fields, size, s, base, x);
      assert DecTag(s).tag in Tags(fields, s);
    } else {
      var n := RecordLength(fields, s).value;
      i := TouchedAddressed(fields, size, s[n..], base, x);
      if DecTag(s).Tag? {
        assert Tags(fields, s) == [DecTag(s).tag] + Tags(fields, s[n..]);
      } else {
        NoLength(fields, s);
      }
    }
  }

  lemma NoLength(fields: seq<Field>, s: bytes)
    ensures RecordLength(fields, s).Some? ==> DecTag(s).Tag?
  {
    hide DecTag;
  }

  lemma RecordAddressed(fields: seq<Field>, size: nat, s: bytes, base: nat, x: int) returns (i: nat)
    requires Fits(fields, size) && fields != [] && TouchedRecord(fields, s, base, x)
    ensures DecTag(s).Tag? && i < |fields| && fields[i].tag == DecTag(s).tag && InField(fields, i, base, x)
  {
    hide DecTag, Fits, Offset, SizeAddress, FitsField, TouchedField, DistinctTags, Separate, Extent, CellSize;
    var tag := DecTag(s);
    i := Lookup(fields, tag.tag).value;
    FieldFits(fields, size, i);
    FieldInside(fields[i], s[tag.n..], base + Offset(fields, i), base + SizeAddress(fields, i), x);
  }

  // A field keeps its bytes, data and cell, unless a record is for it or for a member of
  // the same union.
  lemma UnaddressedKept(fields: seq<Field>, size: nat, s: bytes, base: nat, i: nat, x: int)
    requires Fits(fields, size) && i < |fields| && InField(fields, i, base, x)
    requires forall k :: 0 <= k < |fields| && Leader(fields, k) == Leader(fields, i) ==>
               fields[k].tag !in Tags(fields, s)
    ensures !Touched(fields, s, base, x)
  {
    hide Touched, Tags, Offset, SizeAddress, FitsField, Leader, CellSize, Extent;
    if Touched(fields, s, base, x) {
      var k := TouchedAddressed(fields, size, s, base, x);
      FieldsApart(fields, size, i, k, base, x);
    }
  }

  lemma FieldsApart(fields: seq<Field>, size: nat, i: nat, k: nat, base: nat, x: int)
    requires Separate(fields, size) && i < |fields| && k < |fields| && Leader(fields, i) != Leader(fields, k)
    requires InField(fields, i, base, x)
    ensures !InField(fields, k, base, x)
  {
    hide Offset, SizeAddress, Leader, CellSize, Extent;
    assert i < k || k < i;
  }

  // ---------- structures of the C compiler ----------

  // The descriptor was made for a structure of `size` bytes with these members, and so
  // were those of its submessages.
  ghost predicate Structure(fields: seq<Field>, members: seq<Member>, size: nat)
    decreases fields
  {
    && Describes(fields, members) && NoFalseUnion(fields, members) && Laid(fields, members, size)
         && DistinctTags(fields)
    && (forall i :: 0 <= i < |fields| ==>
          && fields[i].atype.Static? && 1 <= fields[i].tag <= PB_SIZE_MAX && 1 <= fields[i].dataSize <= DATA_MAX
          && fields[i].arraySize <= PB_SIZE_MAX && WidthFits(fields[i])
          && (if fields[i].ltype.TSubmessage? then Structure(fields[i].sub, members[i].sub, fields[i].dataSize)
              else InitFits(fields[i])))
  }

  // No array with a fixed count, at any depth, is smaller than a count.
  ghost predicate DefaultsInside(fields: seq<Field>)
    decreases fields
  {
    forall i :: 0 <= i < |fields| ==>
      DefaultInside(fields[i]) && (fields[i].ltype.TSubmessage? ==> DefaultsInside(fields[i].sub))
  }

  // Descriptors of C structures fit.
  lemma {:induction false} StructureFits(fields: seq<Field>, members: seq<Member>, size: nat)
    requires Structure(fields, members, size) && DefaultsInside(fields)
    ensures Fits(fields, size)
    decreases fields
  {
    hide Entry, NoFalseUnion, Laid, Separate, WidthFits, DefaultInside, DistinctTags, InitFits;
    LaidSeparate(fields, members, size);
    forall i | 0 <= i < |fields|
      ensures FitsField(fields[i])
    {
      if fields[i].ltype.TSubmessage? { StructureFits(fields[i].sub, members[i].sub, fields[i].dataSize); }
    }
  }
}
