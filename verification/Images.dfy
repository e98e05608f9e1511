// What the bytes of a structure hold: the message whose values are stored at the addresses
// of its fields.
module Images {
  import opened Bits
  import opened Wire
  import opened Fields
  import opened Layout
  import opened Encoding
  import opened Decoding
  import opened Schema
  import opened Footprint
  import RoundTrip

  predicate IsAt(mem: bytes, at: int, data: bytes) {
    0 <= at && at + |data| <= |mem| && mem[at..at + |data|] == data
  }

  // A count, or a which_ member.
  predicate CountIs(mem: bytes, at: int, n: nat) {
    0 <= at && at + COUNT_BYTES <= |mem| && FixedValue(mem[at..at + COUNT_BYTES]) == n
  }

  // Where entry k of an array is.
  function ItemAt(f: Field, data: int, k: nat): int {
    data + f.dataSize * k
  }

  // ---------- structures ----------

  // Records for a submessage that is not replaced are merged into what it holds.
  predicate Followed(f: Field, v: Value) {
    f.ltype.TSubmessage? ==> v.VMsg?
  }

  ghost predicate HoldsValue(mem: bytes, f: Field, at: int, v: Value)
    decreases f, 0
  {
    v.VRaw? ||
    if f.ltype.TSubmessage? then v.VMsg? && Holds(mem, f.sub, at, v.m)
    else !v.VMsg? && |Image(f, v)| <= f.dataSize && IsAt(mem, at, Image(f, v))
  }

  ghost predicate HoldsItems(mem: bytes, f: Field, data: int, items: seq<Value>)
    decreases f, 1
  {
    |items| <= f.arraySize && forall k :: 0 <= k < |items| ==> HoldsValue(mem, f, ItemAt(f, data, k), items[k])
  }

  ghost predicate HoldsField(mem: bytes, f: Field, data: int, cell: int, s: Slot)
    decreases f, 2
  {
    match f.htype
    case Required => s.One? && Followed(f, s.v) && HoldsValue(mem, f, data, s.v)
    case Optional =>
      if f.sizeOffset != 0 then
        s.Opt? && IsAt(mem, cell, [if s.has then 1 else 0]) && Followed(f, s.v) && HoldsValue(mem, f, data, s.v)
      else s.One? && Followed(f, s.v) && HoldsValue(mem, f, data, s.v)
    case Repeated =>
      if f.sizeOffset != 0 then s.Many? && CountIs(mem, cell, |s.items|) && HoldsItems(mem, f, data, s.items)
      else s.Fixed? && |s.items| == f.arraySize && HoldsItems(mem, f, data, s.items)
    case Oneof => s.Union? && CountIs(mem, cell, s.which) && (s.which == f.tag ==> HoldsValue(mem, f, data, s.v))
  }

  // A structure of an empty type has one byte, which a record with tag zero writes to.
  ghost predicate Holds(mem: bytes, fields: seq<Field>, base: int, m: Message)
    decreases fields
  {
    if fields == [] then 0 in m ==> m[0].One? && m[0].v.VBool? && IsAt(mem, base, [if m[0].v.b then 1 else 0])
    else
      forall i :: 0 <= i < |fields| ==>
        HoldsField(mem, fields[i], base + Offset(fields, i), base + SizeAddress(fields, i), Get(m, Offset(fields, i)))
  }

  // ---------- framing ----------

  predicate Same(mem: bytes, now: bytes, lo: int, hi: int) {
    |now| == |mem| && forall x :: 0 <= x < |mem| && lo <= x < hi ==> now[x] == mem[x]
  }

  lemma IsAtFrame(mem: bytes, now: bytes, at: int, data: bytes)
    requires IsAt(mem, at, data) && Same(mem, now, at, at + |data|)
    ensures IsAt(now, at, data)
  {
    assert now[at..at + |data|] == mem[at..at + |data|];
  }

  lemma CountFrame(mem: bytes, now: bytes, at: int, n: nat)
    requires CountIs(mem, at, n) && Same(mem, now, at, at + COUNT_BYTES)
    ensures CountIs(now, at, n)
  {
    assert now[at..at + COUNT_BYTES] == mem[at..at + COUNT_BYTES];
  }

  lemma {:induction false} ValueFrame(mem: bytes, now: bytes, f: Field, at: int, v: Value)
    requires FitsField(f) && HoldsValue(mem, f, at, v) && Same(mem, now, at, at + f.dataSize)
    ensures HoldsValue(now, f, at, v)
    decreases f, 0
  {
    hide Fits, Image, Holds;
    if !v.VRaw? {
      if f.ltype.TSubmessage? {
        Frame(mem, now, f.sub, f.dataSize, at, v.m);
      } else {
        IsAtFrame(mem, now, at, Image(f, v));
      }
    }
  }

  lemma {:induction false} ItemsFrame(mem: bytes, now: bytes, f: Field, data: int, items: seq<Value>)
    requires FitsField(f) && f.htype.Repeated? && HoldsItems(mem, f, data, items)
    requires Same(mem, now, data, data + f.dataSize * |items|)
    ensures HoldsItems(now, f, data, items)
    decreases f, 1
  {
    hide FitsField, HoldsValue;
    forall k | 0 <= k < |items|
      ensures HoldsValue(now, f, ItemAt(f, data, k), items[k])
    {
      ItemInside(f, k, |items|);
      ValueFrame(mem, now, f, ItemAt(f, data, k), items[k]);
    }
  }

  lemma ItemInside(f: Field, k: nat, n: nat)
    requires k < n
    ensures 0 <= f.dataSize * k && f.dataSize * k + f.dataSize <= f.dataSize * n
  {
    assert f.dataSize * (k + 1) <= f.dataSize * n;
  }

  lemma {:induction false} FieldFrame(mem: bytes, now: bytes, f: Field, data: int, cell: int, s: Slot)
    requires FitsField(f) && HoldsField(mem, f, data, cell, s)
    requires Same(mem, now, cell, cell + CellSize(f)) && Same(mem, now, data, data + Extent(f))
    ensures HoldsField(now, f, data, cell, s)
    decreases f, 2
  {
    hide HoldsValue, HoldsItems, IsAt, CountIs, Same;
    Shape(f);
    match f.htype
    case Required => ValueFrame(mem, now, f, data, s.v);
    case Optional =>
      ValueFrame(mem, now, f, data, s.v);
      if f.sizeOffset != 0 { IsAtFrame(mem, now, cell, [if s.has then 1 else 0]); }
    case Repeated =>
      ItemsLength(mem, f, data, s.items);
      SameLess(mem, now, f, data, |s.items|);
      ItemsFrame(mem, now, f, data, s.items);
      if f.sizeOffset != 0 { CountFrame(mem, now, cell, |s.items|); }
    case Oneof =>
      CountFrame(mem, now, cell, s.which);
      if s.which == f.tag { ValueFrame(mem, now, f, data, s.v); }
  }

  lemma Shape(f: Field)
    requires FitsField(f)
    ensures f.atype.Static? && f.dataSize >= 1 && Extent(f) == if f.htype.Repeated? then f.dataSize * f.arraySize
              else f.dataSize
    ensures CellSize(f) == match f.htype
                           case Required => 0
                           case Optional => if f.sizeOffset != 0 then 1 else 0
                           case Repeated => if f.sizeOffset != 0 then COUNT_BYTES else 0
                           case Oneof => COUNT_BYTES
  {
    hide Fits;
  }

  lemma ItemsLength(mem: bytes, f: Field, data: int, items: seq<Value>)
    requires HoldsItems(mem, f, data, items)
    ensures |items| <= f.arraySize
  {
    hide HoldsValue;
  }

  lemma SameLess(mem: bytes, now: bytes, f: Field, data: int, n: nat)
    requires n <= f.arraySize && Same(mem, now, data, data + f.dataSize * f.arraySize)
    ensures Same(mem, now, data, data + f.dataSize * n)
  {
    assert f.dataSize * n <= f.dataSize * f.arraySize;
  }

  // What a structure holds depends on its bytes only.
  lemma {:induction false} Frame(mem: bytes, now: bytes, fields: seq<Field>, size: nat, base: int, m: Message)
    requires Fits(fields, size) && size >= 1 && Holds(mem, fields, base, m) && Same(mem, now, base, base + size)
    ensures Holds(now, fields, base, m)
    decreases fields
  {
    hide Separate, FitsField, HoldsField, Offset, SizeAddress, CellSize, Extent, DistinctTags;
    if fields == [] {
      if 0 in m { IsAtFrame(mem, now, base, [if m[0].v.b then 1 else 0]); }
    } else {
      forall i | 0 <= i < |fields|
        ensures HoldsField(now, fields[i], base + Offset(fields, i), base + SizeAddress(fields, i),
                           Get(m, Offset(fields, i)))
      {
        FieldFits(fields, size, i);
        FieldFrame(mem, now, fields[i], base + Offset(fields, i), base + SizeAddress(fields, i),
                   Get(m, Offset(fields, i)));
      }
    }
  }

  // ---------- changing one field ----------

  lemma {:induction false} SameCell(fields: seq<Field>, i: nat)
    requires i < |fields|
    ensures SizeAddress(fields, i) == SizeAddress(fields, Leader(fields, i))
  {
    hide Offset;
    if Continues(fields, i) { SameCell(fields, i - 1); }
  }

  // One field has a new slot, and other bytes are as they were. The members of its union
  // share the slot.
  lemma SetSlot(mem: bytes, now: bytes, fields: seq<Field>, size: nat, base: nat, i: nat, m: Message, slot: Slot)
    requires Fits(fields, size) && i < |fields| && Holds(mem, fields, base, m)
    requires HoldsField(now, fields[i], base + Offset(fields, i), base + SizeAddress(fields, i), slot)
    requires slot.Union? ==> slot.which == 0 || slot.which == fields[i].tag
    requires |now| == |mem| && forall x: int :: 0 <= x < |mem| && !InField(fields, i, base, x) ==> now[x] == mem[x]
    ensures Holds(now, fields, base, m[Offset(fields, i) := slot])
  {
    hide FitsField, HoldsField, Offset, SizeAddress, CellSize, Extent, Separate, InField, DistinctTags;
    forall k | 0 <= k < |fields|
      ensures HoldsField(now, fields[k], base + Offset(fields, k), base + SizeAddress(fields, k),
                         Get(m[Offset(fields, i) := slot], Offset(fields, k)))
    {
      if k != i {
        if Leader(fields, k) == Leader(fields, i) {
          SharedSlot(now, fields, size, base, i, k, slot);
        } else {
          OtherField(mem, now, fields, size, base, i, k, Get(m, Offset(fields, k)));
        }
      }
    }
  }

  lemma SharedSlot(now: bytes, fields: seq<Field>, size: nat, base: nat, i: nat, k: nat, slot: Slot)
    requires Fits(fields, size) && i < |fields| && k < |fields| && i != k && Leader(fields, k) == Leader(fields, i)
    requires HoldsField(now, fields[i], base + Offset(fields, i), base + SizeAddress(fields, i), slot)
    requires slot.Union? ==> slot.which == 0 || slot.which == fields[i].tag
    ensures Offset(fields, k) == Offset(fields, i)
    ensures HoldsField(now, fields[k], base + Offset(fields, k), base + SizeAddress(fields, k), slot)
  {
    hide FitsField, HoldsValue, Offset, SizeAddress, Separate;
    SameUnionSameOffset(fields, i);
    SameUnionSameOffset(fields, k);
    SameCell(fields, i);
    SameCell(fields, k);
    if i < k { RoundTrip.LeaderShared(fields, i, k); } else { RoundTrip.LeaderShared(fields, k, i); }
  }

  lemma OtherField(mem: bytes, now: bytes, fields: seq<Field>, size: nat, base: nat, i: nat, k: nat, s: Slot)
    requires Fits(fields, size) && i < |fields| && k < |fields| && Leader(fields, k) != Leader(fields, i)
    requires HoldsField(mem, fields[k], base + Offset(fields, k), base + SizeAddress(fields, k), s)
    requires |now| == |mem| && forall x: int :: 0 <= x < |mem| && !InField(fields, i, base, x) ==> now[x] == mem[x]
    ensures Offset(fields, k) != Offset(fields, i)
    ensures HoldsField(now, fields[k], base + Offset(fields, k), base + SizeAddress(fields, k), s)
  {
    hide FitsField, HoldsField, Offset, SizeAddress, CellSize, Extent, Separate, Leader, DistinctTags;
    FieldFits(fields, size, k);
    FieldFits(fields, size, i);
    SeparateLayout(fields, size);
    StorageDisjoint(fields, i, k);
    forall x: int | InField(fields, k, base, x)
      ensures !InField(fields, i, base, x)
    {
      FieldsApart(fields, size, k, i, base, x);
    }
    assert forall x: int :: InCell(fields[k], base + SizeAddress(fields, k), x)
             || InData(fields[k], base + Offset(fields, k), x)
             ==> InField(fields, k, base, x);
    FieldFrame(mem, now, fields[k], base + Offset(fields, k), base + SizeAddress(fields, k), s);
  }
}
