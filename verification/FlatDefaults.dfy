// pb_message_set_to_defaults of pb_decode.c for static allocation, writing to the bytes of
// the structure at the addresses that the iterator computes.
module FlatDefaults {
  import opened Bits
  import opened Wire
  import opened Fields
  import opened FieldIterator
  import opened Layout
  import opened Encoding
  import opened Decoding
  import opened Footprint
  import opened Images
  import opened Schema
  import RoundTrip

  // ---------- stores ----------

  method StoreBytes(a: array<byte>, at: nat, data: bytes)
    requires at + |data| <= a.Length
    modifies a
    ensures IsAt(a[..], at, data)
    ensures forall x: int :: 0 <= x < a.Length && !(at <= x < at + |data|) ==> a[x] == old(a[x])
  {
    var i := 0;
    while i < |data|
      invariant 0 <= i <= |data| && a[at..at + i] == data[..i]
      invariant forall x: int :: 0 <= x < a.Length && !(at <= x < at + i) ==> a[x] == old(a[x])
    {
      a[at + i] := data[i];
      i := i + 1;
    }
    assert a[..][at..at + |data|] == a[at..at + |data|];
  }

  // Any bytes, of which a failed scalar decoder may leave some.
  method Scribble(a: array<byte>, at: nat, size: nat)
    requires at + size <= a.Length
    modifies a
    ensures forall x: int :: 0 <= x < a.Length && !(at <= x < at + size) ==> a[x] == old(a[x])
  {
    var junk: bytes := *;
    if |junk| <= size { StoreBytes(a, at, junk); }
  }

  lemma CountRange(data: bytes)
    requires |data| == COUNT_BYTES
    ensures FixedValue(data) <= PB_SIZE_MAX
  {
    FixedValueBound(data);
    PowValues();
    CountPowers();
  }

  lemma CountPowers()
    ensures Pow2(8) == 0x100 && Pow2(16) == TWO16
  {
    assert Pow2(7) == 128;
    PowAdd(8, 8);
  }

  method LoadCount(a: array<byte>, at: nat) returns (n: nat)
    requires at + COUNT_BYTES <= a.Length
    ensures CountIs(a[..], at, n) && n <= PB_SIZE_MAX
  {
    CountRange(a[at..at + COUNT_BYTES]);
    n := FixedValue(a[at..at + COUNT_BYTES]);
    assert a[..][at..at + COUNT_BYTES] == a[at..at + COUNT_BYTES];
  }

  method StoreCount(a: array<byte>, at: nat, n: nat)
    requires at + COUNT_BYTES <= a.Length && n <= PB_SIZE_MAX
    modifies a
    ensures CountIs(a[..], at, n)
    ensures forall x: int :: 0 <= x < a.Length && !(at <= x < at + COUNT_BYTES) ==> a[x] == old(a[x])
  {
    CountImage(n);
    StoreBytes(a, at, EncFixed(n, COUNT_BYTES));
  }

  lemma CountImage(n: nat)
    requires n <= PB_SIZE_MAX
    ensures |EncFixed(n, COUNT_BYTES)| == COUNT_BYTES && FixedValue(EncFixed(n, COUNT_BYTES)) == n
  {
    PowValues();
    CountPowers();
    FixedRoundTrip(n, COUNT_BYTES);
  }

  // ---------- defaults ----------

  // The structure at `base` is inside the memory.
  ghost predicate Placed(a: array<byte>, fields: seq<Field>, size: nat, base: nat) {
    Fits(fields, size) && size >= 1 && base + size <= a.Length
  }

  // A field with its cell inside the memory, apart from each other.
  ghost predicate At(a: array<byte>, f: Field, data: nat, cell: int) {
    && FitsField(f) && Extent(f) >= 1 && data + Extent(f) <= a.Length
    && 0 <= cell && cell + CellSize(f) <= a.Length
    && (CellSize(f) > 0 ==> Apart(cell, CellSize(f), data, Extent(f)))
    && (f.sizeOffset == 0 && f.htype.Repeated? ==> cell == data)
  }

  lemma FieldAtBase(a: array<byte>, fields: seq<Field>, size: nat, base: nat, i: nat)
    requires Placed(a, fields, size, base) && i < |fields|
    ensures At(a, fields[i], base + Offset(fields, i), base + SizeAddress(fields, i))
  {
    hide Offset, SizeAddress, FitsField, CellSize, Extent, Fits, Separate, DistinctTags;
    FieldFits(fields, size, i);
    if fields[i].sizeOffset == 0 && fields[i].htype.Repeated? { OwnCell(fields, i); }
  }

  lemma OwnCell(fields: seq<Field>, i: nat)
    requires i < |fields| && fields[i].sizeOffset == 0 && fields[i].htype.Repeated?
    ensures SizeAddress(fields, i) == Offset(fields, i)
  {
  }

  lemma EntryAt(f: Field, k: nat)
    requires f.atype.Static? && f.dataSize >= 1
    requires if f.htype.Repeated? then k < f.arraySize else k == 0
    ensures f.dataSize * k + f.dataSize <= Extent(f)
  {
    if f.htype.Repeated? { EntryInside(f, k); }
  }

  lemma SubmessagePlaced(a: array<byte>, f: Field, dest: nat)
    requires FitsField(f) && f.ltype.TSubmessage? && dest + f.dataSize <= a.Length
    ensures Placed(a, f.sub, f.dataSize, dest)
  {
  }

  // The default of a field other than a submessage: its bytes, then zeros.
  function DefaultImage(f: Field): (r: bytes)
    requires InitFits(f)
    ensures |r| == f.dataSize
  {
    var image := Image(f, f.init);
    image + seq(f.dataSize - |image|, _ => 0)
  }

  // What a slot may say before: memory that is not followed, or what the field holds.
  ghost predicate OldField(mem: bytes, f: Field, data: int, cell: int, s: Slot) {
    f.htype.Oneof? || s == One(VInt(0)) || HoldsField(mem, f, data, cell, s)
  }

  ghost predicate OldMsg(mem: bytes, fields: seq<Field>, base: int, m: Message) {
    fields == [] || m == map[] || Holds(mem, fields, base, m)
  }

  lemma OldFields(mem: bytes, fields: seq<Field>, base: int, m: Message, i: nat)
    requires OldMsg(mem, fields, base, m) && i < |fields|
    ensures OldField(mem, fields[i], base + Offset(fields, i), base + SizeAddress(fields, i), Get(m, Offset(fields, i)))
  {
    hide HoldsField, Offset, SizeAddress;
  }

  // Field i was set to its default; those before it have theirs, those behind it are as
  // they were.
  lemma DefaultsBefore(mem: bytes, now: bytes, fields: seq<Field>, size: nat, base: nat, i: nat, was: Message)
    requires Fits(fields, size) && i < |fields|
    requires forall k :: 0 <= k < i ==> HasDefault(mem, fields, base, k, was)
    requires forall k :: i <= k < |fields| ==> HasOld(mem, fields, base, k, was)
    requires HasDefault(now, fields, base, i, was)
    requires |now| == |mem| && forall x: int :: 0 <= x < |mem| && !InField(fields, i, base, x) ==> now[x] == mem[x]
    ensures forall k :: 0 <= k < i + 1 ==> HasDefault(now, fields, base, k, was)
    ensures forall k :: i + 1 <= k < |fields| ==> HasOld(now, fields, base, k, was)
  {
    hide Fits, HasDefault, HasOld, InField, Leader;
    forall k | 0 <= k < |fields| && k != i
      ensures if k < i then HasDefault(now, fields, base, k, was) else HasOld(now, fields, base, k, was)
    {
      if Leader(fields, k) != Leader(fields, i) {
        if k < i {
          DefaultStays(mem, now, fields, size, base, i, k, was);
        } else {
          OldStays(mem, now, fields, size, base, i, k, was);
        }
      } else if i < k {
        UnionOld(now, fields, base, i, k, was);
      } else {
        UnionDefault(now, fields, size, base, i, k, was);
      }
    }
  }

  lemma DefaultStays(mem: bytes, now: bytes, fields: seq<Field>, size: nat, base: nat, i: nat, k: nat, was: Message)
    requires Fits(fields, size) && i < |fields| && k < |fields| && Leader(fields, k) != Leader(fields, i)
    requires HasDefault(mem, fields, base, k, was)
    requires |now| == |mem| && forall x: int :: 0 <= x < |mem| && !InField(fields, i, base, x) ==> now[x] == mem[x]
    ensures HasDefault(now, fields, base, k, was)
  {
    hide Fits, HoldsField, Offset, SizeAddress, InField, DefaultSlot, Leader;
    OtherField(mem, now, fields, size, base, i, k, DefaultSlot(fields[k], Get(was, Offset(fields, k))));
  }

  lemma OldStays(mem: bytes, now: bytes, fields: seq<Field>, size: nat, base: nat, i: nat, k: nat, was: Message)
    requires Fits(fields, size) && i < |fields| && k < |fields| && Leader(fields, k) != Leader(fields, i)
    requires HasOld(mem, fields, base, k, was)
    requires |now| == |mem| && forall x: int :: 0 <= x < |mem| && !InField(fields, i, base, x) ==> now[x] == mem[x]
    ensures HasOld(now, fields, base, k, was)
  {
    hide Fits, HoldsField, Offset, SizeAddress, InField, Leader;
    if !fields[k].htype.Oneof? && Get(was, Offset(fields, k)) != One(VInt(0)) {
      OtherField(mem, now, fields, size, base, i, k, Get(was, Offset(fields, k)));
    }
  }

  lemma UnionOld(now: bytes, fields: seq<Field>, base: nat, i: nat, k: nat, was: Message)
    requires i < k < |fields| && Leader(fields, k) == Leader(fields, i)
    ensures HasOld(now, fields, base, k, was)
  {
    hide HoldsField, Offset, SizeAddress, Leader;
    RoundTrip.LeaderShared(fields, i, k);
  }

  // The members of a union share their default.
  lemma UnionDefault(now: bytes, fields: seq<Field>, size: nat, base: nat, i: nat, k: nat, was: Message)
    requires Fits(fields, size) && k < i < |fields| && Leader(fields, k) == Leader(fields, i)
    requires HasDefault(now, fields, base, i, was)
    ensures HasDefault(now, fields, base, k, was)
  {
    hide Fits, HoldsField, Offset, SizeAddress, Leader;
    RoundTrip.LeaderShared(fields, k, i);
    SharedSlot(now, fields, size, base, i, k, Union(0, VRaw));
  }

  ghost predicate HasDefault(mem: bytes, fields: seq<Field>, base: nat, k: nat, was: Message)
    requires k < |fields|
  {
    HoldsField(mem, fields[k], base + Offset(fields, k), base + SizeAddress(fields, k),
               DefaultSlot(fields[k], Get(was, Offset(fields, k))))
  }

  ghost predicate HasOld(mem: bytes, fields: seq<Field>, base: nat, k: nat, was: Message)
    requires k < |fields|
  {
    OldField(mem, fields[k], base + Offset(fields, k), base + SizeAddress(fields, k), Get(was, Offset(fields, k)))
  }

  lemma DefaultsHeld(mem: bytes, fields: seq<Field>, size: nat, base: nat, was: Message)
    requires Fits(fields, size) && forall k :: 0 <= k < |fields| ==> HasDefault(mem, fields, base, k, was)
    ensures Holds(mem, fields, base, DefaultMsg(fields, was))
  {
    hide Fits, HasDefault, HoldsField, Offset, SizeAddress, DefaultMsg;
    if fields == [] {
      EmptyDefault(was);
    } else {
      forall k | 0 <= k < |fields|
        ensures HoldsField(mem, fields[k], base + Offset(fields, k), base + SizeAddress(fields, k),
                           Get(DefaultMsg(fields, was), Offset(fields, k)))
      {
        DefaultHeld(mem, fields, size, base, k, was);
      }
    }
  }

  lemma EmptyDefault(was: Message)
    ensures DefaultMsg([], was) == map[]
  {
  }

  lemma DefaultHeld(mem: bytes, fields: seq<Field>, size: nat, base: nat, k: nat, was: Message)
    requires Fits(fields, size) && k < |fields| && HasDefault(mem, fields, base, k, was)
    ensures HoldsField(mem, fields[k], base + Offset(fields, k), base + SizeAddress(fields, k),
                       Get(DefaultMsg(fields, was), Offset(fields, k)))
  {
    hide FitsField, Separate, HoldsField, Offset, SizeAddress, DefaultSlot, DefaultUpTo;
    SeparateLayout(fields, size);
    RoundTrip.DefaultAt(fields, |fields|, k, was);
  }

  // pb_message_set_to_defaults writes the cells and data of fields, nothing between them.
  method SetToDefaults(a: array<byte>, fields: seq<Field>, ghost size: nat, base: nat, ghost was: Message)
    requires Placed(a, fields, size, base) && OldMsg(a[..], fields, base, was)
    modifies a
    ensures Holds(a[..], fields, base, DefaultMsg(fields, was))
    ensures forall x: int :: 0 <= x < a.Length && !InAny(fields, base, x) ==> a[x] == old(a[x])
    decreases fields, 1
  {
    hide Fits, Offset, SizeAddress, FitsField, CellSize, Extent, InField, HoldsField, HasDefault, HasOld, Holds, OldMsg,
      DefaultMsg, DefaultSlot;
    assert DistinctTags(fields) by { FitsTags(fields, size); }
    var iter := new FieldIter(fields);
    if fields == [] {
      DefaultsHeld(a[..], fields, size, base, was);
      return;
    }
    forall k | 0 <= k < |fields|
      ensures HasOld(a[..], fields, base, k, was)
    {
      StartsOld(a[..], fields, base, was, k);
    }
    var more := true;
    while more
      invariant iter.Valid() && iter.start == fields && fresh(iter)
      invariant forall x: int :: 0 <= x < a.Length && !InAny(fields, base, x) ==> a[x] == old(a[x])
      invariant forall k :: 0 <= k < (if more then iter.pos else |fields|) ==> HasDefault(a[..], fields, base, k, was)
      invariant more ==> forall k :: iter.pos <= k < |fields| ==> HasOld(a[..], fields, base, k, was)
      decreases if more then |fields| - iter.pos else 0
      modifies iter, a
    {
      ghost var i, mem := iter.pos, a[..];
      FieldAtBase(a, fields, size, base, i);
      IsOld(mem, fields, base, was, i);
      SetToDefault(a, fields[iter.pos], base + iter.pData, base + iter.pSize, Get(was, Offset(fields, i)));
      forall x: int
        ensures InField(fields, i, base, x) ||
                (!InCell(fields[i], base + SizeAddress(fields, i), x)
                    && !InData(fields[i], base + Offset(fields, i), x))
        ensures !InAny(fields, base, x) ==> !InField(fields, i, base, x)
      {
        FieldBytes(fields, i, base, x);
      }
      NowDefault(a[..], fields, base, was, i);
      DefaultsBefore(mem, a[..], fields, size, base, i, was);
      more := iter.Next();
    }
    DefaultsHeld(a[..], fields, size, base, was);
  }

  lemma StartsOld(mem: bytes, fields: seq<Field>, base: nat, was: Message, k: nat)
    requires OldMsg(mem, fields, base, was) && k < |fields|
    ensures HasOld(mem, fields, base, k, was)
  {
    hide OldMsg, OldField, Offset, SizeAddress;
    OldFields(mem, fields, base, was, k);
  }

  lemma IsOld(mem: bytes, fields: seq<Field>, base: nat, was: Message, i: nat)
    requires i < |fields| && HasOld(mem, fields, base, i, was)
    ensures OldField(mem, fields[i], base + Offset(fields, i), base + SizeAddress(fields, i),
              Get(was, Offset(fields, i)))
  {
    hide OldField, Offset, SizeAddress;
  }

  lemma NowDefault(mem: bytes, fields: seq<Field>, base: nat, was: Message, i: nat)
    requires i < |fields|
    requires HoldsField(mem, fields[i], base + Offset(fields, i), base + SizeAddress(fields, i),
                        DefaultSlot(fields[i], Get(was, Offset(fields, i))))
    ensures HasDefault(mem, fields, base, i, was)
  {
    hide HoldsField, Offset, SizeAddress, DefaultSlot;
  }

  lemma FieldBytes(fields: seq<Field>, i: nat, base: nat, x: int)
    requires i < |fields|
    ensures InField(fields, i, base, x) <==>
            InCell(fields[i], base + SizeAddress(fields, i), x) || InData(fields[i], base + Offset(fields, i), x)
    ensures !InAny(fields, base, x) ==> !InField(fields, i, base, x)
  {
    hide Offset, SizeAddress, InCell, InData;
  }

  // Some field or its cell is at x.
  ghost predicate InAny(fields: seq<Field>, base: nat, x: int) {
    exists i :: 0 <= i < |fields| && InField(fields, i, base, x)
  }

  lemma FitsTags(fields: seq<Field>, size: nat)
    requires Fits(fields, size)
    ensures DistinctTags(fields) && forall i :: 0 <= i < |fields| ==> fields[i].tag != 0
  {
    hide Separate, FitsField;
  }

  lemma AnyInside(fields: seq<Field>, size: nat, base: nat, x: int)
    requires Fits(fields, size) && InAny(fields, base, x)
    ensures base <= x < base + size
  {
    hide Offset, SizeAddress, FitsField, Extent, CellSize;
    var i :| 0 <= i < |fields| && InField(fields, i, base, x);
    FieldFits(fields, size, i);
  }

  // pb_field_set_to_default
  method SetToDefault(a: array<byte>, f: Field, data: nat, cell: nat, ghost was: Slot)
    requires At(a, f, data, cell) && OldField(a[..], f, data, cell, was)
    modifies a
    ensures HoldsField(a[..], f, data, cell, DefaultSlot(f, was))
    ensures !f.ltype.TSubmessage? && (f.htype.Required? || f.htype.Optional?) ==> ZeroBehind(a[..], f, data)
    ensures forall x: int :: 0 <= x < a.Length && !InCell(f, cell, x) && !InData(f, data, x) ==> a[x] == old(a[x])
    decreases f, 2
  {
    hide FitsField, Extent, OldField, HoldsField, DefaultSlot, IsAt, CountIs;
    ghost var mem := a[..];
    Shape(f);
    CellsDefault(f);
    var initData := true;
    if f.htype.Optional? && f.sizeOffset != 0 {
      StoreBytes(a, cell, [0]);
    } else if f.htype.Repeated? || f.htype.Oneof? {
      StoreCount(a, cell, 0);
      initData := false;
    }
    if initData {
      ghost var mid := a[..];
      InitData(a, f, data, mem, cell, was);
      if f.htype.Optional? && f.sizeOffset != 0 { IsAtFrame(mid, a[..], cell, [0]); }
      InitHeld(a[..], f, data, cell, was);
    } else {
      CountHeld(mem, a[..], f, data, cell, was);
    }
  }

  // The bytes that the default count of an array without one covers are its own.
  lemma CellsDefault(f: Field)
    requires FitsField(f)
    ensures f.htype.Repeated? && f.sizeOffset == 0 ==> COUNT_BYTES <= Extent(f)
    ensures f.ltype.TSubmessage? || InitFits(f)
  {
    hide Fits;
  }

  // The data of a field, and of a submessage by recursion.
  method InitData(a: array<byte>, f: Field, data: nat, ghost mem: bytes, ghost cell: nat, ghost was: Slot)
    requires At(a, f, data, cell) && (f.htype.Required? || f.htype.Optional?)
    requires OldField(mem, f, data, cell, was) && Same(mem, a[..], data, data + f.dataSize)
    modifies a
    ensures HoldsValue(a[..], f, data, InitValue(f, ValueOf(was)))
    ensures !f.ltype.TSubmessage? ==> ZeroBehind(a[..], f, data)
    ensures forall x: int :: 0 <= x < a.Length && !(data <= x < data + f.dataSize) ==> a[x] == old(a[x])
    decreases f, 1
  {
    hide FitsField, Extent, OldField, HoldsField, Holds, Fits, InAny, DefaultMsg;
    Shape(f);
    CellsDefault(f);
    if f.ltype.TSubmessage? {
      SubmessagePlaced(a, f, data);
      ghost var old_ := AsMsg(ValueOf(was));
      OldSub(mem, a[..], f, data, cell, was);
      SetToDefaults(a, f.sub, f.dataSize, data, old_);
      forall x: int | InAny(f.sub, data, x)
        ensures data <= x < data + f.dataSize
      {
        AnyInside(f.sub, f.dataSize, data, x);
      }
    } else {
      StoreBytes(a, data, DefaultImage(f));
      ImagePrefix(a[..], f, data);
      ImageTail(a[..], f, data);
    }
  }

  // The bytes of a member behind its default are zero.
  predicate ZeroBehind(mem: bytes, f: Field, data: int) {
    forall x: int :: 0 <= x < |mem| && data + |Image(f, f.init)| <= x < data + f.dataSize ==> mem[x] == 0
  }

  lemma ImageTail(mem: bytes, f: Field, data: int)
    requires InitFits(f) && IsAt(mem, data, DefaultImage(f))
    ensures ZeroBehind(mem, f, data)
  {
    hide Image;
    var image := DefaultImage(f);
    forall x: int | data + |Image(f, f.init)| <= x < data + f.dataSize
      ensures mem[x] == 0
    {
      assert mem[x] == mem[data..data + |image|][x - data] == image[x - data];
    }
  }

  lemma ImagePrefix(mem: bytes, f: Field, data: int)
    requires InitFits(f) && !f.ltype.TSubmessage? && IsAt(mem, data, DefaultImage(f))
    ensures HoldsValue(mem, f, data, f.init)
  {
    hide Image;
    var image := Image(f, f.init);
    assert mem[data..data + |image|] == DefaultImage(f)[..|image|] == image;
  }

  lemma OldSub(mem: bytes, now: bytes, f: Field, data: int, cell: int, was: Slot)
    requires FitsField(f) && f.ltype.TSubmessage? && (f.htype.Required? || f.htype.Optional?)
    requires OldField(mem, f, data, cell, was) && Same(mem, now, data, data + f.dataSize)
    ensures OldMsg(now, f.sub, data, AsMsg(ValueOf(was)))
  {
    hide FitsField, Holds;
    if was != One(VInt(0)) && !ValueOf(was).VRaw? { ValueFrame(mem, now, f, data, ValueOf(was)); }
  }

  lemma InitHeld(now: bytes, f: Field, data: nat, cell: nat, was: Slot)
    requires FitsField(f) && (f.htype.Required? || f.htype.Optional?)
               && HoldsValue(now, f, data, InitValue(f, ValueOf(was)))
    requires f.htype.Optional? && f.sizeOffset != 0 ==> IsAt(now, cell, [0])
    ensures HoldsField(now, f, data, cell, DefaultSlot(f, was))
  {
    hide FitsField, HoldsValue, DefaultMsg;
    Shape(f);
  }

  // An array or union of which only the count was written.
  lemma CountHeld(mem: bytes, now: bytes, f: Field, data: nat, cell: nat, was: Slot)
    requires FitsField(f) && (f.htype.Repeated? || f.htype.Oneof?) && OldField(mem, f, data, cell, was)
    requires f.htype.Repeated? && f.sizeOffset == 0 ==> cell == data
    requires CountIs(now, cell, 0)
    requires |now| == |mem| && forall x: int :: 0 <= x < |mem| && !(cell <= x < cell + COUNT_BYTES) ==> now[x] == mem[x]
    ensures HoldsField(now, f, data, cell, DefaultSlot(f, was))
  {
    hide Fits, HoldsValue, CountIs, Uninitialized, Overwritten;
    if FixedCount(f) { Unwritten(mem, now, f, data, was); }
  }

  lemma Unwritten(mem: bytes, now: bytes, f: Field, data: nat, was: Slot)
    requires FitsField(f) && FixedCount(f) && OldField(mem, f, data, data, was)
    requires |now| == |mem| && forall x: int :: 0 <= x < |mem| && !(data <= x < data + COUNT_BYTES) ==> now[x] == mem[x]
    ensures HoldsItems(now, f, data, Uninitialized(f, ItemsOf(was)))
  {
    hide FitsField, HoldsValue, Overwritten, OldField;
    var items := Uninitialized(f, ItemsOf(was));
    Shape(f);
    forall k | 0 <= k < |items|
      ensures HoldsValue(now, f, ItemAt(f, data, k), items[k])
    {
      if Overwritten(f) <= k < |ItemsOf(was)| {
        BehindCount(f, k);
        OldItem(mem, f, data, was, k);
        ValueFrame(mem, now, f, ItemAt(f, data, k), items[k]);
      } else {
        RawHeld(now, f, ItemAt(f, data, k));
      }
    }
  }

  lemma OldItem(mem: bytes, f: Field, data: nat, was: Slot, k: nat)
    requires FixedCount(f) && OldField(mem, f, data, data, was) && k < |ItemsOf(was)|
    ensures HoldsValue(mem, f, ItemAt(f, data, k), ItemsOf(was)[k])
  {
    assert HoldsItems(mem, f, data, ItemsOf(was));
  }

  lemma RawHeld(mem: bytes, f: Field, at: int)
    ensures HoldsValue(mem, f, at, VRaw)
  {
  }

  lemma BehindCount(f: Field, k: nat)
    requires f.dataSize >= 1 && Overwritten(f) <= k
    ensures COUNT_BYTES <= f.dataSize * k
  {
    var n := Overwritten(f);
    assert f.dataSize * n <= f.dataSize * k;
    assert COUNT_BYTES <= f.dataSize * ((COUNT_BYTES + f.dataSize - 1) / f.dataSize);
  }
}
