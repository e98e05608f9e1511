// pb_decode.c for static allocation, writing to the bytes of the destination at the
// addresses that the iterator computes. It accepts exactly what Decoding accepts, and then
// the bytes hold the message of Decoding; only bytes of the fields that records are for are
// written.
module FlatDecoder {
  import opened Bits
  import opened Wire
  import opened Streams
  import opened Fields
  import opened FieldIterator
  import opened Layout
  import opened Encoding
  import opened Decoding
  import opened Records
  import opened Footprint
  import opened FlatDefaults
  import opened Images
  import opened Schema
  import Decoder

  // ---------- scalars ----------

  lemma ImageFits(f: Field, s: bytes)
    requires f.atype.Static?
    requires DecScalar(f, s).Ok? && WidthFits(f) && f.dataSize >= 1
    ensures |Image(f, DecScalar(f, s).value)| <= f.dataSize
    ensures !DecScalar(f, s).value.VMsg?
  {
    hide DecVarint, DecVarint32, DecBlock, FixedValue, UnZigZag, EncFixed;
  }

  method DecodeScalar(s: IStream, a: array<byte>, f: Field, dest: nat) returns (ok: bool)
    requires f.atype.Static?
    requires s.Valid() && !f.ltype.TSubmessage? && WidthFits(f) && 1 <= f.dataSize <= DATA_MAX
    requires dest + f.dataSize <= a.Length
    modifies s, a
    ensures s.Valid() && s.End() <= old(s.End())
    ensures forall x: int :: 0 <= x < a.Length && !(dest <= x < dest + f.dataSize) ==> a[x] == old(a[x])
    ensures ok <==> DecScalar(f, old(s.Rest())).Ok?
    ensures ok ==> s.Consumed(DecScalar(f, old(s.Rest())).n)
    ensures ok ==> HoldsValue(a[..], f, dest, DecScalar(f, old(s.Rest())).value)
  {
    hide DecScalar, Image;
    ghost var rest := s.Rest();
    var v;
    ok, v := Decoder.DecodeScalar(s, f);
    if ok {
      ImageFits(f, rest);
      StoreBytes(a, dest, Image(f, v));
    } else {
      Scribble(a, dest, f.dataSize);
    }
  }

  // ---------- arrays ----------

  // The next entry of an array: its count, or the counter of the loop for an array that
  // has none.
  ghost predicate IndexIs(mem: bytes, f: Field, cell: int, counter: nat, k: nat) {
    if FixedCount(f) then k == counter else CountIs(mem, cell, k)
  }

  method LoadIndex(f: Field, a: array<byte>, cell: nat, counter: nat) returns (k: nat)
    requires FixedCount(f) || cell + COUNT_BYTES <= a.Length
    ensures IndexIs(a[..], f, cell, counter, k) && (FixedCount(f) || k <= PB_SIZE_MAX)
  {
    if FixedCount(f) { return counter; }
    k := LoadCount(a, cell);
  }

  // The index as it is stored: it wraps at the width of pb_size_t.
  function Wrapped(n: nat): nat {
    if n <= PB_SIZE_MAX then n else 0
  }

  // (*size)++, at the width of pb_size_t. The counter is of no other array.
  method StoreIndex(f: Field, a: array<byte>, cell: nat, n: nat, counter: nat) returns (counter': nat)
    requires f.htype.Repeated? && (FixedCount(f) || cell + COUNT_BYTES <= a.Length) && n <= PB_SIZE_MAX + 1
    requires counter <= PB_SIZE_MAX
    modifies a
    ensures IndexIs(a[..], f, cell, counter', Wrapped(n)) && counter' <= PB_SIZE_MAX
    ensures !FixedCount(f) ==> counter' == counter
    ensures forall x: int :: 0 <= x < a.Length && !InCell(f, cell, x) ==> a[x] == old(a[x])
  {
    Wrap(n, PB_SIZE_MAX + 1);
    var m := n % (PB_SIZE_MAX + 1);
    if FixedCount(f) { return m; }
    counter' := counter;
    StoreCount(a, cell, m);
  }

  // The bytes of entry k.
  predicate InItem(f: Field, data: nat, k: nat, x: int) {
    ItemAt(f, data, k) <= x < ItemAt(f, data, k) + f.dataSize
  }

  // The bytes of the entries from k on.
  predicate InRest(f: Field, data: nat, k: nat, x: int) {
    InData(f, data, x) && ItemAt(f, data, k) <= x
  }

  lemma ItemInRest(f: Field, data: nat, k: nat, n: nat, x: int)
    requires f.atype.Static? && f.htype.Repeated? && f.dataSize >= 1 && k <= n < f.arraySize && InItem(f, data, n, x)
    ensures InRest(f, data, k, x)
  {
    EntryAt(f, n);
    assert f.dataSize * k <= f.dataSize * n;
  }

  lemma ItemsApart(f: Field, data: nat, k: nat, n: nat, x: int)
    requires k != n && InItem(f, data, k, x)
    ensures !InItem(f, data, n, x)
  {
    if k < n {
      assert f.dataSize * (k + 1) <= f.dataSize * n;
    } else {
      assert f.dataSize * (n + 1) <= f.dataSize * k;
    }
  }

  // Entry k was stored and counted.
  lemma ItemStored(mem: bytes, now: bytes, f: Field, data: nat, cell: nat, slot: Slot, counter: nat, k: nat, v: Value)
    requires FitsField(f) && f.htype.Repeated? && HoldsField(mem, f, data, cell, slot) && k == CountOf(f, slot, counter)
    requires k < f.arraySize && HoldsValue(now, f, ItemAt(f, data, k), v)
    requires CellSize(f) > 0 ==> Apart(cell, CellSize(f), data, Extent(f)) && CountIs(now, cell, k + 1)
    requires |now| == |mem|
    requires forall x: int :: 0 <= x < |mem| && !InCell(f, cell, x) && !InItem(f, data, k, x) ==> now[x] == mem[x]
    ensures HoldsField(now, f, data, cell, PutItem(f, slot, counter, v))
  {
    hide FitsField, HoldsValue, HoldsItems, CountIs, ItemAt, Extent;
    Shape(f);
    ItemsLength(mem, f, data, ItemsOf(slot));
    ItemsStored(mem, now, f, data, cell, ItemsOf(slot), k, v);
  }

  lemma ItemsStored(mem: bytes, now: bytes, f: Field, data: nat, cell: nat, items: seq<Value>, k: nat, v: Value)
    requires FitsField(f) && f.htype.Repeated? && HoldsItems(mem, f, data, items) && k <= |items| && k < f.arraySize
    requires HoldsValue(now, f, ItemAt(f, data, k), v)
    requires CellSize(f) > 0 ==> Apart(cell, CellSize(f), data, Extent(f))
    requires |now| == |mem|
    requires forall x: int :: 0 <= x < |mem| && !InCell(f, cell, x) && !InItem(f, data, k, x) ==> now[x] == mem[x]
    ensures HoldsItems(now, f, data, if k < |items| then items[k := v] else items + [v])
  {
    hide FitsField, HoldsValue;
    Shape(f);
    var put := if k < |items| then items[k := v] else items + [v];
    forall l | 0 <= l < |put|
      ensures HoldsValue(now, f, ItemAt(f, data, l), put[l])
    {
      if l != k {
        ItemInside(f, l, f.arraySize);
        forall x: int | InItem(f, data, l, x)
          ensures !InItem(f, data, k, x)
        {
          ItemsApart(f, data, l, k, x);
        }
        ValueFrame(mem, now, f, ItemAt(f, data, l), put[l]);
      }
    }
  }

  // A scalar stored as entry k, and counted when it was read.
  method DecodeEntry(s: IStream, a: array<byte>, f: Field, data: nat, cell: nat, counter: nat, count: nat,
        ghost slot: Slot)
    returns (ok: bool, counter': nat)
    requires s.Valid() && At(a, f, data, cell) && f.htype.Repeated? && Packable(f.ltype)
    requires HoldsField(a[..], f, data, cell, slot) && count == CountOf(f, slot, counter) < f.arraySize
    requires counter <= PB_SIZE_MAX
    modifies s, a
    ensures s.Valid() && s.End() <= old(s.End()) && counter' <= PB_SIZE_MAX
    ensures var r := DecScalar(f, old(s.Rest()));
            && (ok <==> r.Ok?)
            && (ok ==> s.Consumed(r.n) && HoldsField(a[..], f, data, cell, PutItem(f, slot, counter, r.value)))
            && (ok ==> counter' == Bump(f, counter))
    ensures forall x: int :: 0 <= x < a.Length && !InCell(f, cell, x) ==> a[x] == old(a[x]) || InRest(f, data, count, x)
  {
    hide FitsField, WidthFits, Extent, InRest, InItem, DecScalar, HoldsField, HoldsValue, CountOf, PutItem, ItemAt,
      IndexIs;
    ghost var mem := a[..];
    counter' := counter;
    FieldBounds(a, f, data, cell);
    EntryAt(f, count);
    var dest := ItemNat(f, data, count);
    ok := DecodeScalar(s, a, f, dest);
    ghost var mid := a[..];
    forall x: int
      ensures dest <= x < dest + f.dataSize <==> InItem(f, data, count, x)
      ensures InItem(f, data, count, x) ==> InRest(f, data, count, x)
    {
      ItemIs(f, data, count, x);
      if InItem(f, data, count, x) { ItemInRest(f, data, count, count, x); }
    }
    if ok {
      counter' := StoreIndex(f, a, cell, count + 1, counter);
      CountedIs(a[..], f, data, cell, slot, counter, counter', count);
      ItemApart(f, data, cell, count);
      ValueFrame(mid, a[..], f, dest, DecScalar(f, old(s.Rest())).value);
      ItemStored(mem, a[..], f, data, cell, slot, counter, count, DecScalar(f, old(s.Rest())).value);
    }
  }

  function ItemNat(f: Field, data: nat, k: nat): (at: nat)
    ensures at == ItemAt(f, data, k)
  {
    data + f.dataSize * k
  }

  lemma ItemIs(f: Field, data: nat, k: nat, x: int)
    ensures InItem(f, data, k, x) <==> ItemAt(f, data, k) <= x < ItemAt(f, data, k) + f.dataSize
  {
  }

  lemma ItemApart(f: Field, data: nat, cell: nat, k: nat)
    requires FitsField(f) && f.htype.Repeated? && k < f.arraySize
    requires CellSize(f) > 0 ==> Apart(cell, CellSize(f), data, Extent(f))
    ensures forall x: int :: InItem(f, data, k, x) ==> !InCell(f, cell, x)
  {
    hide Fits;
    EntryAt(f, k);
  }

  // The index after an entry was counted.
  lemma CountedIs(now: bytes, f: Field, data: nat, cell: nat, slot: Slot, counter: nat, counter': nat, k: nat)
    requires FitsField(f) && f.htype.Repeated? && k < f.arraySize && k == CountOf(f, slot, counter)
    requires IndexIs(now, f, cell, counter', Wrapped(k + 1))
    requires !FixedCount(f) ==> counter' == counter
    ensures counter' == Bump(f, counter) && (CellSize(f) > 0 ==> CountIs(now, cell, k + 1))
  {
    hide Fits, CountIs;
  }

  lemma FieldBounds(a: array<byte>, f: Field, data: nat, cell: nat)
    requires At(a, f, data, cell)
    ensures WidthFits(f) && 1 <= f.dataSize <= DATA_MAX && f.arraySize <= PB_SIZE_MAX && f.atype.Static?
    ensures Extent(f) == if f.htype.Repeated? then f.dataSize * f.arraySize else f.dataSize
  {
    hide Fits;
  }

  // The index that is loaded is the one of Decoding.
  lemma LoadedIs(mem: bytes, f: Field, data: nat, cell: nat, slot: Slot, counter: nat, k: nat)
    requires FitsField(f) && f.htype.Repeated? && HoldsField(mem, f, data, cell, slot)
               && IndexIs(mem, f, cell, counter, k)
    ensures k == CountOf(f, slot, counter)
  {
    hide FitsField, HoldsItems;
  }

  // The packed case of decode_static_field. Entries that were there are kept.
  method DecodePacked(s: IStream, a: array<byte>, f: Field, data: nat, cell: nat, counter: nat, ghost slot: Slot)
    returns (ok: bool, counter': nat, ghost slot': Slot)
    requires s.Valid() && At(a, f, data, cell) && f.htype.Repeated? && Packable(f.ltype) && counter <= PB_SIZE_MAX
    requires HoldsField(a[..], f, data, cell, slot)
    modifies s, a
    ensures s.Valid() && s.End() <= old(s.End()) && counter' <= PB_SIZE_MAX
    ensures var block := DecBlock(old(s.Rest()));
            && (ok <==> block.Ok? && DecPacked(f, block.value, slot, counter).Some?)
            && (ok ==> DecPacked(f, block.value, slot, counter) == Some((slot', counter')) && s.Consumed(block.n))
            && (ok ==> HoldsField(a[..], f, data, cell, slot'))
    ensures forall x: int :: 0 <= x < a.Length && !InCell(f, cell, x) ==>
              a[x] == old(a[x]) || InRest(f, data, CountOf(f, slot, counter), x)
  {
    hide DecBlock, DecScalar, Fits, InRest, InCell, Extent, FitsField, HoldsField, PutItem, IndexIs;
    ghost var k0 := CountOf(f, slot, counter);
    counter', slot' := counter, slot;
    CapacityIs(f);
    var got, sub := s.MakeSubstream();
    if !got { return false, counter', slot'; }
    ghost var block := sub.Rest();
    CellInside(a, f, data, cell);
    var count := LoadIndex(f, a, cell, counter);
    LoadedIs(a[..], f, data, cell, slot, counter, count);
    var status := true;
    while sub.left > 0 && count < f.arraySize && status
      invariant s.Valid() && sub.Valid() && fresh(sub) && sub.buf == s.buf
      invariant sub.End() + s.left <= old(s.End()) && (status ==> sub.End() + s.left == old(s.End()))
      invariant s.left == old(s.left) - DecBlock(old(s.Rest())).n
      invariant k0 <= count && counter' <= PB_SIZE_MAX
      invariant status ==> count == CountOf(f, slot', counter') && HoldsField(a[..], f, data, cell, slot')
      invariant status ==> DecPacked(f, block, slot, counter) == DecPacked(f, sub.Rest(), slot', counter')
      invariant !status ==> DecPacked(f, block, slot, counter).None?
      invariant forall x: int :: 0 <= x < a.Length && !InCell(f, cell, x) ==>
                  a[x] == old(a[x]) || InRest(f, data, k0, x)
      decreases status, sub.left
      modifies sub, a
    {
      ghost var was, rest, r := count, sub.Rest(), DecScalar(f, sub.Rest());
      ghost var counter0 := counter';
      status, counter' := DecodeEntry(sub, a, f, data, cell, counter', count, slot');
      forall x: int | InRest(f, data, was, x)
        ensures InRest(f, data, k0, x)
      {
        RestShrinks(f, data, k0, was, x);
      }
      PackedStep(f, rest, slot', counter0);
      if status {
        slot' := PutItem(f, slot', counter0, r.value);
        count := count + 1;
      }
    }
    PackedEnd(f, sub.Rest(), slot', counter');
    if sub.left != 0 { return false, counter', slot'; }
    var closed := s.CloseSubstream(sub);
    ok := status;
  }

  lemma CapacityIs(f: Field)
    requires FitsField(f)
    ensures Capacity(f) == f.arraySize
  {
    hide Fits;
  }

  lemma CellInside(a: array<byte>, f: Field, data: nat, cell: nat)
    requires At(a, f, data, cell) && f.htype.Repeated?
    ensures FixedCount(f) || cell + COUNT_BYTES <= a.Length
  {
    hide FitsField, Extent;
  }

  lemma PackedStep(f: Field, rest: bytes, slot: Slot, c: nat)
    requires rest != [] && CountOf(f, slot, c) < Capacity(f) && f.htype.Repeated?
    ensures var r := DecScalar(f, rest);
            && (r.Ok? ==>
                  DecPacked(f, rest, slot, c) == DecPacked(f, rest[r.n..], PutItem(f, slot, c, r.value), Bump(f, c)))
            && (r.Fail? ==> DecPacked(f, rest, slot, c).None?)
    ensures forall v :: CountOf(f, PutItem(f, slot, c, v), Bump(f, c)) == CountOf(f, slot, c) + 1
  {
    hide DecScalar;
  }

  lemma PackedEnd(f: Field, rest: bytes, slot: Slot, c: nat)
    ensures rest == [] ==> DecPacked(f, rest, slot, c) == Some((slot, c))
    ensures rest != [] && CountOf(f, slot, c) >= Capacity(f) ==> DecPacked(f, rest, slot, c).None?
  {
  }

  lemma RestShrinks(f: Field, data: nat, k: nat, n: nat, x: int)
    requires k <= n && InRest(f, data, n, x)
    ensures InRest(f, data, k, x)
  {
    assert f.dataSize * k <= f.dataSize * n;
  }

  // ---------- one field ----------

  // pb_dec_submessage. An array entry starts from its defaults; anything else is merged
  // into what is there, and only what its records are for is written.
  method DecodeSubmessage(s: IStream, a: array<byte>, f: Field, dest: nat, ghost into: Message) returns (ok: bool)
    requires s.Valid() && FitsField(f) && f.ltype.TSubmessage? && dest + f.dataSize <= a.Length
    requires if f.htype.Repeated? then into == DefaultMsg(f.sub, map[]) else Holds(a[..], f.sub, dest, into)
    modifies s, a
    ensures s.Valid() && s.End() <= old(s.End())
    ensures var block := DecBlock(old(s.Rest()));
            && (ok <==> block.Ok? && DecMsg(f.sub, block.value, into).Ok?)
            && (ok ==> s.Consumed(block.n) && Holds(a[..], f.sub, dest, DecMsg(f.sub, block.value, into).value))
    ensures forall x: int :: 0 <= x < a.Length && !(dest <= x < dest + f.dataSize) ==> a[x] == old(a[x])
    ensures !f.htype.Repeated? ==>
      forall x: int :: 0 <= x < a.Length && !TouchedBlock(f, old(s.Rest()), dest, x) ==> a[x] == old(a[x])
    decreases s.left, 1
  {
    hide DecBlock, FitsField, Placed, TouchedBlock, Touched, Holds, DecMsg, DefaultMsg, IStream.Rest;
    ghost var rest := s.Rest();
    SubmessagePlaced(a, f, dest);
    var got, sub := s.MakeSubstream();
    if !got { return false; }
    if f.htype.Repeated? {
      NothingOld(a[..], f.sub, dest);
      ok := Decode(sub, a, f.sub, f.dataSize, dest, map[]);
    } else {
      ok := DecodeNoinit(sub, a, f.sub, f.dataSize, dest, into);
      BlockTouches(a, f, rest, dest);
    }
    var closed := s.CloseSubstream(sub);
    if ok { s.Advanced(DecBlock(rest).n); }
  }

  lemma NothingOld(mem: bytes, fields: seq<Field>, base: int)
    ensures OldMsg(mem, fields, base, map[])
  {
  }

  // What the records of a submessage are for.
  ghost predicate TouchedBlock(f: Field, s: bytes, dest: nat, x: int) {
    DecBlock(s).Ok? && Touched(f.sub, DecBlock(s).value, dest, x)
  }

  lemma BlockTouches(a: array<byte>, f: Field, s: bytes, dest: nat)
    requires DecBlock(s).Ok? && Placed(a, f.sub, f.dataSize, dest)
    ensures forall x: int :: Touched(f.sub, DecBlock(s).value, dest, x) ==>
              TouchedBlock(f, s, dest, x) && dest <= x < dest + f.dataSize
  {
    hide DecBlock, Touched, Fits;
    forall x: int | Touched(f.sub, DecBlock(s).value, dest, x)
      ensures dest <= x < dest + f.dataSize
    {
      TouchedInside(f.sub, f.dataSize, DecBlock(s).value, dest, x);
    }
  }

  // What the records of a submessage are merged into is in memory.
  ghost predicate Based(mem: bytes, f: Field, dest: int, slot: Slot) {
    f.ltype.TSubmessage? && !f.htype.Repeated? ==> Holds(mem, f.sub, dest, BaseMsg(f, slot))
  }

  // The field decoder for one entry at `dest`.
  method DecodeValue(s: IStream, a: array<byte>, f: Field, dest: nat, ghost slot: Slot) returns (ok: bool)
    requires s.Valid() && FitsField(f) && dest + f.dataSize <= a.Length && Based(a[..], f, dest, slot)
    modifies s, a
    ensures s.Valid() && s.End() <= old(s.End())
    ensures var r := DecValue(f, old(s.Rest()), slot);
            (ok <==> r.Ok?) && (ok ==> s.Consumed(r.n) && HoldsValue(a[..], f, dest, r.value))
    ensures forall x: int :: 0 <= x < a.Length && !(dest <= x < dest + f.dataSize) ==> a[x] == old(a[x])
    ensures !f.htype.Repeated? && f.ltype.TSubmessage? ==>
      forall x: int :: 0 <= x < a.Length && !TouchedBlock(f, old(s.Rest()), dest, x) ==> a[x] == old(a[x])
    decreases s.left, 2
  {
    hide DecBlock, DecScalar, FitsField, WidthFits, TouchedBlock, Holds, HoldsValue, DecMsg, DefaultMsg, BaseMsg,
      DecValue;
    ghost var rest := s.Rest();
    MemberBounds(f);
    ValueIs(f, rest, slot);
    if f.ltype.TSubmessage? {
      if f.htype.Repeated? { EntryBase(f, slot); }
      ok := DecodeSubmessage(s, a, f, dest, BaseMsg(f, slot));
      if ok { MessageHeld(a[..], f, dest, DecMsg(f.sub, DecBlock(rest).value, BaseMsg(f, slot)).value); }
    } else {
      ok := DecodeScalar(s, a, f, dest);
    }
  }

  lemma MemberBounds(f: Field)
    requires FitsField(f)
    ensures WidthFits(f) && 1 <= f.dataSize <= DATA_MAX && f.atype.Static?
  {
    hide Fits;
  }

  lemma ValueIs(f: Field, s: bytes, slot: Slot)
    ensures var block := DecBlock(s);
            DecValue(f, s, slot) ==
            if !f.ltype.TSubmessage? then DecScalar(f, s)
            else if block.Ok? && DecMsg(f.sub, block.value, BaseMsg(f, slot)).Ok? then
              Ok(VMsg(DecMsg(f.sub, block.value, BaseMsg(f, slot)).value), block.n)
            else Fail
  {
    hide DecBlock, DecScalar, BaseMsg;
  }

  lemma EntryBase(f: Field, slot: Slot)
    requires f.htype.Repeated?
    ensures BaseMsg(f, slot) == DefaultMsg(f.sub, map[])
  {
  }

  lemma MessageHeld(mem: bytes, f: Field, at: int, m: Message)
    requires f.ltype.TSubmessage? && Holds(mem, f.sub, at, m)
    ensures HoldsValue(mem, f, at, VMsg(m))
  {
    hide Holds;
  }

  // The has-flag or which-tag of a field is set.
  ghost predicate Marked(mem: bytes, f: Field, cell: int) {
    && (f.htype.Optional? && f.sizeOffset != 0 ==> IsAt(mem, cell, [1]))
    && (f.htype.Oneof? ==> CountIs(mem, cell, f.tag))
  }

  // The has-flag or which-tag of a field, and the defaults of a new union member.
  method MarkPresent(a: array<byte>, f: Field, data: nat, cell: nat, ghost slot: Slot)
    requires At(a, f, data, cell) && !f.htype.Repeated? && HoldsField(a[..], f, data, cell, slot)
    modifies a
    ensures Marked(a[..], f, cell) && Based(a[..], f, data, slot)
    ensures f.htype.Oneof? && f.ltype.TSubmessage? ==> ZeroBetween(a[..], f, data)
    ensures forall x: int :: 0 <= x < a.Length && !InCell(f, cell, x) ==>
              a[x] == old(a[x]) || (f.htype.Oneof? && InData(f, data, x))
  {
    hide FitsField, IsAt, CountIs, HoldsField, Holds, DefaultMsg, BaseMsg, Extent;
    ghost var mem := a[..];
    Shape(f);
    if f.htype.Optional? && f.sizeOffset != 0 {
      StoreBytes(a, cell, [1]);
    } else if f.htype.Oneof? {
      TagFits(f);
      StoreCount(a, cell, f.tag);
      if f.ltype.TSubmessage? {
        ghost var mid := a[..];
        ClearSubmessage(a, f, data);
        CountFrame(mid, a[..], cell, f.tag);
        UnionBase(f, slot);
      }
    }
    if !f.htype.Oneof? && f.ltype.TSubmessage? { BaseHeld(mem, a[..], f, data, cell, slot); }
  }

  lemma TagFits(f: Field)
    requires FitsField(f)
    ensures f.tag <= PB_SIZE_MAX
  {
    hide Fits;
  }

  lemma UnionBase(f: Field, slot: Slot)
    requires f.htype.Oneof?
    ensures BaseMsg(f, slot) == DefaultMsg(f.sub, map[])
  {
  }

  // What a submessage holds is what its records are merged into.
  lemma BaseHeld(mem: bytes, now: bytes, f: Field, data: nat, cell: nat, slot: Slot)
    requires FitsField(f) && f.ltype.TSubmessage? && (f.htype.Required? || f.htype.Optional?)
    requires HoldsField(mem, f, data, cell, slot) && Same(mem, now, data, data + f.dataSize)
    ensures Holds(now, f.sub, data, BaseMsg(f, slot))
  {
    hide Holds, Fits, WidthFits, DefaultMsg;
    ValueFrame(mem, now, f, data, ValueOf(slot));
  }

  // The bytes between the fields of a submessage are zero.
  ghost predicate ZeroBetween(mem: bytes, f: Field, data: nat) {
    forall x: int :: 0 <= x < |mem| && data <= x < data + f.dataSize && !InAny(f.sub, data, x) ==> mem[x] == 0
  }

  lemma ZeroStored(mem: bytes, f: Field, data: nat)
    requires IsAt(mem, data, seq(f.dataSize, _ => 0))
    ensures forall x: int :: data <= x < data + f.dataSize ==> x < |mem| && mem[x] == 0
  {
    forall x: int | data <= x < data + f.dataSize
      ensures mem[x] == 0
    {
      assert mem[x] == mem[data..data + f.dataSize][x - data];
    }
  }

  // A union member is zeroed and set to its defaults before it is decoded.
  method ClearSubmessage(a: array<byte>, f: Field, data: nat)
    requires FitsField(f) && f.ltype.TSubmessage? && data + f.dataSize <= a.Length
    modifies a
    ensures Holds(a[..], f.sub, data, DefaultMsg(f.sub, map[])) && ZeroBetween(a[..], f, data)
    ensures forall x: int :: 0 <= x < a.Length && !(data <= x < data + f.dataSize) ==> a[x] == old(a[x])
  {
    hide FitsField, Fits, InAny, Holds, DefaultMsg, OldMsg, IsAt;
    StoreBytes(a, data, seq(f.dataSize, _ => 0));
    ZeroStored(a[..], f, data);
    SubmessagePlaced(a, f, data);
    NothingOld(a[..], f.sub, data);
    SetToDefaults(a, f.sub, f.dataSize, data, map[]);
    forall x: int | InAny(f.sub, data, x)
      ensures data <= x < data + f.dataSize
    {
      AnyInside(f.sub, f.dataSize, data, x);
    }
  }

  // decode_static_field, of a field that is not repeated
  method DecodeSingle(s: IStream, a: array<byte>, f: Field, data: nat, cell: nat, ghost slot: Slot) returns (ok: bool)
    requires s.Valid() && At(a, f, data, cell) && !f.htype.Repeated? && HoldsField(a[..], f, data, cell, slot)
    modifies s, a
    ensures s.Valid() && s.End() <= old(s.End()) && Marked(a[..], f, cell)
    ensures var r := DecValue(f, old(s.Rest()), slot);
            && (ok <==> r.Ok?)
            && (ok ==> s.Consumed(r.n) && HoldsField(a[..], f, data, cell, StoreValue(f, slot, 0, r.value)))
    ensures forall x: int :: 0 <= x < a.Length && !TouchedField(f, old(s.Rest()), data, cell, x) ==> a[x] == old(a[x])
    decreases s.left, 3
  {
    hide DecBlock, Touched, FitsField, HoldsField, HoldsValue, DecValue, StoreValue, Based, Marked, Extent, CellSize;
    ghost var rest := s.Rest();
    MemberBounds(f);
    Shape(f);
    MarkPresent(a, f, data, cell, slot);
    ghost var mid := a[..];
    ok := DecodeValue(s, a, f, data, slot);
    MarkKept(mid, a[..], f, data, cell);
    if ok { SingleHeld(a[..], f, data, cell, rest, slot); }
  }

  lemma MarkKept(mem: bytes, now: bytes, f: Field, data: nat, cell: nat)
    requires FitsField(f) && !f.htype.Repeated? && Marked(mem, f, cell)
    requires CellSize(f) > 0 ==> Apart(cell, CellSize(f), data, f.dataSize)
    requires |now| == |mem| && forall x: int :: 0 <= x < |mem| && !(data <= x < data + f.dataSize) ==> now[x] == mem[x]
    ensures Marked(now, f, cell)
  {
    hide FitsField, IsAt, CountIs;
    Shape(f);
    if f.htype.Optional? && f.sizeOffset != 0 { IsAtFrame(mem, now, cell, [1]); }
    if f.htype.Oneof? { CountFrame(mem, now, cell, f.tag); }
  }

  lemma SingleHeld(mem: bytes, f: Field, data: nat, cell: nat, s: bytes, slot: Slot)
    requires FitsField(f) && !f.htype.Repeated? && Marked(mem, f, cell)
    requires DecValue(f, s, slot).Ok? && HoldsValue(mem, f, data, DecValue(f, s, slot).value)
    ensures HoldsField(mem, f, data, cell, StoreValue(f, slot, 0, DecValue(f, s, slot).value))
  {
    hide FitsField, HoldsValue, IsAt, CountIs, DecScalar, DecBlock, BaseMsg, DecMsg;
    Shape(f);
  }

  // decode_static_field, of one entry of an array: counted before it is read
  method DecodeAppend(s: IStream, a: array<byte>, f: Field, data: nat, cell: nat, counter: nat, ghost slot: Slot)
    returns (ok: bool, counter': nat)
    requires s.Valid() && At(a, f, data, cell) && f.htype.Repeated? && counter <= PB_SIZE_MAX
    requires HoldsField(a[..], f, data, cell, slot)
    modifies s, a
    ensures s.Valid() && s.End() <= old(s.End()) && counter' <= PB_SIZE_MAX
    ensures var r := DecValue(f, old(s.Rest()), slot);
            && (ok <==> CountOf(f, slot, counter) < f.arraySize && r.Ok?)
            && (ok ==> s.Consumed(r.n) && HoldsField(a[..], f, data, cell, PutItem(f, slot, counter, r.value)))
            && (ok ==> counter' == Bump(f, counter))
    ensures forall x: int :: 0 <= x < a.Length && !InCell(f, cell, x) ==>
              a[x] == old(a[x]) || InRest(f, data, CountOf(f, slot, counter), x)
    decreases s.left, 4
  {
    hide FitsField, WidthFits, Extent, InRest, InItem, HoldsField, HoldsValue, CountOf, PutItem, ItemAt, IndexIs,
      DecValue;
    ghost var mem, rest := a[..], s.Rest();
    FieldBounds(a, f, data, cell);
    CellInside(a, f, data, cell);
    var k := LoadIndex(f, a, cell, counter);
    LoadedIs(mem, f, data, cell, slot, counter, k);
    counter' := StoreIndex(f, a, cell, k + 1, counter);
    if k >= f.arraySize { return false, counter'; }
    CountedIs(a[..], f, data, cell, slot, counter, counter', k);
    EntryAt(f, k);
    var dest := ItemNat(f, data, k);
    ghost var mid := a[..];
    ok := DecodeValue(s, a, f, dest, slot);
    forall x: int
      ensures dest <= x < dest + f.dataSize <==> InItem(f, data, k, x)
      ensures InItem(f, data, k, x) ==> InRest(f, data, k, x)
    {
      ItemIs(f, data, k, x);
      if InItem(f, data, k, x) { ItemInRest(f, data, k, k, x); }
    }
    if ok {
      ItemApart(f, data, cell, k);
      CountKept(mid, a[..], f, data, cell, k);
      ItemStored(mem, a[..], f, data, cell, slot, counter, k, DecValue(f, rest, slot).value);
    }
  }

  // The count stays while its entry is read.
  lemma CountKept(mem: bytes, now: bytes, f: Field, data: nat, cell: nat, k: nat)
    requires FitsField(f) && f.htype.Repeated? && (CellSize(f) > 0 ==> CountIs(mem, cell, k + 1))
    requires forall x: int :: InItem(f, data, k, x) ==> !InCell(f, cell, x)
    requires |now| == |mem| && forall x: int :: 0 <= x < |mem| && !InItem(f, data, k, x) ==> now[x] == mem[x]
    ensures CellSize(f) > 0 ==> CountIs(now, cell, k + 1)
  {
    hide FitsField, CountIs, InItem;
    Shape(f);
    if CellSize(f) > 0 { CountFrame(mem, now, cell, k + 1); }
  }

  // decode_static_field
  method DecodeField(s: IStream, a: array<byte>, wireType: nat, f: Field, data: nat, cell: nat, counter: nat,
        ghost slot: Slot)
    returns (ok: bool, counter': nat)
    requires s.Valid() && At(a, f, data, cell) && counter <= PB_SIZE_MAX && HoldsField(a[..], f, data, cell, slot)
    modifies s, a
    ensures s.Valid() && s.End() <= old(s.End()) && counter' <= PB_SIZE_MAX
    ensures var r := DecField(f, wireType, old(s.Rest()), slot, counter);
            && (ok <==> r.Ok?)
            && (ok ==> s.Consumed(r.n) && HoldsField(a[..], f, data, cell, r.value.0) && counter' == r.value.1)
    ensures forall x: int :: 0 <= x < a.Length && !TouchedField(f, old(s.Rest()), data, cell, x) ==> a[x] == old(a[x])
    ensures f.htype.Repeated? ==> forall x: int :: 0 <= x < a.Length && !InCell(f, cell, x) ==>
              a[x] == old(a[x]) || InRest(f, data, CountOf(f, slot, counter), x)
    decreases s.left, 5
  {
    hide FitsField, Extent, DecBlock, DecValue, DecPacked, DecField, StoreValue, PutItem, CellSize, HoldsField, CountOf;
    counter' := counter;
    FieldIs(f, wireType, s.Rest(), slot, counter);
    CapacityIs(f);
    if !f.htype.Repeated? {
      ok := DecodeSingle(s, a, f, data, cell, slot);
    } else if wireType == WT_STRING && Packable(f.ltype) {
      ghost var slot';
      ok, counter', slot' := DecodePacked(s, a, f, data, cell, counter, slot);
    } else {
      ok, counter' := DecodeAppend(s, a, f, data, cell, counter, slot);
    }
  }

  lemma FieldIs(f: Field, wireType: nat, s: bytes, slot: Slot, c: nat)
    ensures var r, block, v := DecField(f, wireType, s, slot, c), DecBlock(s), DecValue(f, s, slot);
            if f.htype.Repeated? && wireType == WT_STRING && Packable(f.ltype) then
              r == if block.Ok? && DecPacked(f, block.value, slot, c).Some? then
                     Ok(DecPacked(f, block.value, slot, c).value, block.n)
                   else Fail
            else if f.htype.Repeated? then
              r == if CountOf(f, slot, c) < Capacity(f) && v.Ok? then
                     Ok((PutItem(f, slot, c, v.value), Bump(f, c)), v.n)
                   else Fail
            else r == if v.Ok? then Ok((StoreValue(f, slot, 0, v.value), c), v.n) else Fail
  {
    hide DecBlock, DecPacked, DecValue, PutItem, CountOf, Capacity;
  }

  // ---------- the loop over all fields ----------

  // A record after its tag, for the field the iterator found.
  method DecodeKnown(s: IStream, a: array<byte>, wireType: nat, iter: FieldIter, ghost size: nat, base: nat,
      fixedField: Option<nat>, fixedCount: nat, ghost m: Message, ghost seen: set<nat>)
    returns (ok: bool, fixedField': Option<nat>, fixedCount': nat)
    requires s.Valid() && iter.Valid() && Placed(a, iter.start, size, base) && fixedCount <= PB_SIZE_MAX
    requires fixedField.Some? ==> fixedField.value < |iter.start|
    requires Holds(a[..], iter.start, base, m)
    modifies s, a
    ensures s.Valid() && s.End() <= old(s.End()) && fixedCount' <= PB_SIZE_MAX
    ensures var r := DecKnown(iter.start, iter.pos, wireType, old(s.Rest()), State(m, seen, fixedField, fixedCount));
            && (ok <==> r.Next?)
            && (ok ==> s.Consumed(r.n) && Holds(a[..], iter.start, base, r.st.msg))
            && (ok ==> r.st.seen == MarkSeen(iter.start, iter.pos, seen))
            && (ok ==> r.st.fixedField == fixedField' && r.st.fixedCount == fixedCount')
    ensures forall x: int :: 0 <= x < a.Length && !TouchedAt(iter.start, iter.pos, old(s.Rest()), base, x) ==>
              a[x] == old(a[x])
    decreases s.left, 6
  {
    hide Fits, Offset, SizeAddress, RequiredBefore, AtMember, DecField, Holds, HoldsField, TouchedField, DecBlock,
      FitsField, Extent, CellSize, MarkSeen, Get;
    ghost var fields, i, mem, rest := iter.start, iter.pos, a[..], s.Rest();
    fixedField', fixedCount' := fixedField, fixedCount;
    if iter.pos == |iter.start| {
      TerminatorIs(wireType, rest, State(m, seen, fixedField, fixedCount));
      ok := DecodeTerminator(s, a, base, m);
      return;
    }
    var f := iter.start[iter.pos];
    FieldAtBase(a, iter.start, size, base, iter.pos);
    if f.htype.Repeated? { Decoder.CountAddress(iter.start, iter.pos); }
    if f.htype.Repeated? && iter.pSize == iter.pData {
      if fixedField != Some(iter.pos) {
        if fixedField.Some? && fixedCount != iter.start[fixedField.value].arraySize {
          return false, fixedField', fixedCount';
        }
        fixedField', fixedCount' := Some(iter.pos), 0;
      }
    }
    ghost var slot := Get(m, Offset(fields, i));
    SlotHeld(mem, fields, base, i, m);
    ghost var counter := fixedCount';
    ok, fixedCount' := DecodeField(s, a, wireType, f, base + iter.pData, base + iter.pSize, fixedCount', slot);
    if ok { RecordHeld(mem, a[..], fields, size, base, i, m, wireType, rest, counter); }
  }

  lemma SlotHeld(mem: bytes, fields: seq<Field>, base: nat, i: nat, m: Message)
    requires i < |fields| && Holds(mem, fields, base, m)
    ensures HoldsField(mem, fields[i], base + Offset(fields, i), base + SizeAddress(fields, i),
              Get(m, Offset(fields, i)))
  {
    hide HoldsField, Offset, SizeAddress, Get;
  }

  // A record changes one slot of the message.
  lemma RecordHeld(mem: bytes, now: bytes, fields: seq<Field>, size: nat, base: nat, i: nat, m: Message,
        wireType: nat, s: bytes, counter: nat)
    requires Fits(fields, size) && i < |fields| && Holds(mem, fields, base, m)
    requires DecField(fields[i], wireType, s, Get(m, Offset(fields, i)), counter).Ok?
    requires HoldsField(now, fields[i], base + Offset(fields, i), base + SizeAddress(fields, i),
                        DecField(fields[i], wireType, s, Get(m, Offset(fields, i)), counter).value.0)
    requires |now| == |mem|
    requires forall x: int ::
               0 <= x < |mem| && !TouchedField(fields[i], s, base + Offset(fields, i), base + SizeAddress(fields, i),
                   x) ==>
               now[x] == mem[x]
    ensures var slot := DecField(fields[i], wireType, s, Get(m, Offset(fields, i)), counter).value.0;
            Holds(now, fields, base, m[Offset(fields, i) := slot])
  {
    hide Fits, Holds, HoldsField, Offset, SizeAddress, TouchedField, DecField, Get, InField, FitsField, CellSize,
      Extent;
    var slot := DecField(fields[i], wireType, s, Get(m, Offset(fields, i)), counter).value.0;
    FieldFits(fields, size, i);
    forall x: int | !InField(fields, i, base, x)
      ensures !TouchedField(fields[i], s, base + Offset(fields, i), base + SizeAddress(fields, i), x)
    {
      TouchedInField(fields, size, i, s, base, x);
    }
    UnionSlot(now, fields[i], base + Offset(fields, i), base + SizeAddress(fields, i), wireType, s,
              Get(m, Offset(fields, i)), counter);
    SetSlot(mem, now, fields, size, base, i, m, slot);
  }

  lemma TouchedInField(fields: seq<Field>, size: nat, i: nat, s: bytes, base: nat, x: int)
    requires Fits(fields, size) && i < |fields| && !InField(fields, i, base, x)
    ensures !TouchedField(fields[i], s, base + Offset(fields, i), base + SizeAddress(fields, i), x)
  {
    hide Fits, Offset, SizeAddress, TouchedField, FitsField, CellSize, Extent;
    FieldFits(fields, size, i);
    var data, cell := base + Offset(fields, i), base + SizeAddress(fields, i);
    if TouchedField(fields[i], s, data, cell, x) { FieldInside(fields[i], s, data, cell, x); }
  }

  // A union holds the member of the last record.
  lemma UnionSlot(mem: bytes, f: Field, data: int, cell: int, wireType: nat, s: bytes, slot: Slot, counter: nat)
    requires DecField(f, wireType, s, slot, counter).Ok?
    requires HoldsField(mem, f, data, cell, DecField(f, wireType, s, slot, counter).value.0)
    ensures var after := DecField(f, wireType, s, slot, counter).value.0;
            after.Union? ==> after.which == 0 || after.which == f.tag
  {
    hide HoldsValue, HoldsItems, IsAt, CountIs, DecBlock, DecPacked, DecValue;
  }

  ghost predicate TouchedAt(fields: seq<Field>, i: nat, s: bytes, base: nat, x: int)
    requires i <= |fields|
  {
    if i == |fields| then x == base
    else TouchedField(fields[i], s, base + Offset(fields, i), base + SizeAddress(fields, i), x)
  }

  // The terminator is taken for a required bool at the start of an empty structure.
  method DecodeTerminator(s: IStream, a: array<byte>, base: nat, ghost m: Message) returns (ok: bool)
    requires s.Valid() && base < a.Length
    modifies s, a
    ensures s.Valid() && s.End() <= old(s.End())
    ensures var r := DecScalar(LAST_FIELD, old(s.Rest()));
            && (ok <==> r.Ok?)
            && (ok ==> s.Consumed(r.n) && Holds(a[..], [], base, m[0 := One(r.value)]))
    ensures forall x: int :: 0 <= x < a.Length && x != base ==> a[x] == old(a[x])
  {
    hide DecVarint32;
    var v;
    ok, v := Decoder.DecodeScalar(s, LAST_FIELD);
    if ok { StoreBytes(a, base, Image(LAST_FIELD, v)); }
  }

  lemma TerminatorIs(wireType: nat, s: bytes, st: State)
    ensures var v := DecScalar(LAST_FIELD, s);
            DecKnown([], 0, wireType, s, st) ==
            if v.Ok? then Next(st.(msg := st.msg[0 := One(v.value)], seen := MarkSeen([], 0, st.seen)), v.n) else Error
  {
    hide DecScalar, DecField;
    FieldIs(LAST_FIELD, wireType, s, Get(st.msg, 0), st.fixedCount);
    ValueIs(LAST_FIELD, s, Get(st.msg, 0));
  }

  // A record after its tag: skipped when no field has the tag.
  method DecodeTagged(s: IStream, a: array<byte>, tag: nat, wireType: nat, iter: FieldIter, ghost size: nat, base: nat,
      words: array<nat>, fixedField: Option<nat>, fixedCount: nat, ghost m: Message, ghost seen: set<nat>)
    returns (ok: bool, fixedField': Option<nat>, fixedCount': nat)
    requires s.Valid() && iter.Valid() && Placed(a, iter.start, size, base) && fixedCount <= PB_SIZE_MAX
    requires words.Length == 2 && (words as object) != (a as object) && Decoder.SeenBits(words[..], seen)
    requires fixedField.Some? ==> fixedField.value < |iter.start|
    requires Holds(a[..], iter.start, base, m)
    modifies s, a, iter, words
    ensures s.Valid() && s.End() <= old(s.End()) && iter.Valid() && fixedCount' <= PB_SIZE_MAX
    ensures var r := Decoder.Tagged(iter.start, tag, wireType, old(s.Rest()), State(m, seen, fixedField, fixedCount));
            && (ok <==> r.Next?)
            && (ok ==> s.Consumed(r.n) && Holds(a[..], iter.start, base, r.st.msg))
            && (ok ==> Decoder.SeenBits(words[..], r.st.seen))
            && (ok ==> r.st.fixedField == fixedField' && r.st.fixedCount == fixedCount')
    ensures forall x: int :: 0 <= x < a.Length && !TouchedTagged(iter.start, tag, old(s.Rest()), base, x) ==>
              a[x] == old(a[x])
    decreases s.left, 7
  {
    hide Fits, FieldIter.Valid, Decoder.SeenBits, Wire.SkipField, TouchedAt, Lookup, MarkSeen, DistinctTags, Holds,
      DecKnown;
    fixedField', fixedCount' := fixedField, fixedCount;
    FitsTags(iter.start, size);
    var found := iter.Find(tag);
    PosInside(iter);
    Decoder.FoundIsLookup(iter.start, tag, found, iter.pos);
    if !found {
      ok := s.SkipField(wireType);
      return;
    }
    Decoder.MarkField(iter, words, seen);
    ok, fixedField', fixedCount' := DecodeKnown(s, a, wireType, iter, size, base, fixedField, fixedCount, m, seen);
  }

  ghost predicate TouchedTagged(fields: seq<Field>, tag: nat, body: bytes, base: nat, x: int) {
    match Lookup(fields, tag)
    case Some(i) => TouchedAt(fields, i, body, base, x)
    case None => false
  }

  // One round of the loop of pb_decode_noinit; the message and the fields seen are ghost.
  method DecodeRecord(s: IStream, a: array<byte>, iter: FieldIter, ghost size: nat, base: nat, words: array<nat>,
      fixedField: Option<nat>, fixedCount: nat, ghost m: Message, ghost seen: set<nat>)
    returns (status: Decoder.Status, fixedField': Option<nat>, fixedCount': nat)
    requires s.Valid() && iter.Valid() && s.left > 0 && Placed(a, iter.start, size, base) && fixedCount <= PB_SIZE_MAX
    requires words.Length == 2 && (words as object) != (a as object) && Decoder.SeenBits(words[..], seen)
    requires fixedField.Some? ==> fixedField.value < |iter.start|
    requires Holds(a[..], iter.start, base, m)
    modifies s, a, iter, words
    ensures s.Valid() && s.End() <= old(s.End()) && iter.Valid() && fixedCount' <= PB_SIZE_MAX
    ensures var r := Step(iter.start, old(s.Rest()), State(m, seen, fixedField, fixedCount));
            && (status.More? <==> r.Next?) && (status.End? <==> r.Stop?)
            && (status.More? ==> s.Consumed(r.n) && Holds(a[..], iter.start, base, r.st.msg))
            && (status.More? ==> Decoder.SeenBits(words[..], r.st.seen))
            && (status.More? ==> r.st.fixedField == fixedField' && r.st.fixedCount == fixedCount')
            && (status.End? ==> s.Consumed(r.n) && Holds(a[..], iter.start, base, m))
            && (status.End? ==> Decoder.SeenBits(words[..], seen))
            && (status.End? ==> fixedField' == fixedField && fixedCount' == fixedCount)
    ensures forall x: int :: 0 <= x < a.Length && !TouchedRecord(iter.start, old(s.Rest()), base, x) ==>
              a[x] == old(a[x])
    decreases s.left, 8
  {
    hide Fits, FieldIter.Valid, Decoder.SeenBits, DecTag, Step, Decoder.Tagged, TouchedTagged, TouchedRecord, Holds;
    fixedField', fixedCount' := fixedField, fixedCount;
    ghost var fields, rest, st := iter.start, s.Rest(), State(m, seen, fixedField, fixedCount);
    var got, wireType, tag, eof := s.DecodeTag();
    if !got {
      Decoder.StepEnds(fields, rest, st);
      status := if eof then Decoder.End else Decoder.Bad;
      return;
    }
    Decoder.StepTagged(fields, rest, st, tag, wireType, s.Rest());
    RecordTouches(fields, rest, tag, wireType, s.Rest(), base);
    var ok;
    ok, fixedField', fixedCount' :=
      DecodeTagged(s, a, tag, wireType, iter, size, base, words, fixedField, fixedCount, m, seen);
    status := if ok then Decoder.More else Decoder.Bad;
  }

  lemma RecordTouches(fields: seq<Field>, s: bytes, tag: nat, wireType: nat, body: bytes, base: nat)
    requires DecTag(s).Tag? && DecTag(s) == Tag(tag, wireType, DecTag(s).n) && body == s[DecTag(s).n..]
    ensures forall x: int :: TouchedTagged(fields, tag, body, base, x) ==> TouchedRecord(fields, s, base, x)
  {
    hide DecTag, Lookup, TouchedField, Offset, SizeAddress;
  }

  // pb_decode_noinit merges into the message that the structure holds.
  method DecodeNoinit(s: IStream, a: array<byte>, fields: seq<Field>, ghost size: nat, base: nat, ghost into: Message)
    returns (ok: bool)
    requires s.Valid() && Placed(a, fields, size, base) && Holds(a[..], fields, base, into)
    modifies s, a
    ensures s.Valid() && s.End() <= old(s.End())
    ensures var r := DecMsg(fields, old(s.Rest()), into);
            (ok <==> r.Ok?) && (ok ==> s.Consumed(r.n) && Holds(a[..], fields, base, r.value))
    ensures forall x: int :: 0 <= x < a.Length && !Touched(fields, old(s.Rest()), base, x) ==> a[x] == old(a[x])
    decreases s.left, 9
  {
    hide Fits, FieldIter.Valid, Decoder.SeenBits, RequiredDone, Touched, TouchedRecord, RecordLength, DistinctTags,
      Holds, Decoder.Running, DecMsg, DecLoop, Step, Decoder.InBounds;
    FitsTags(fields, size);
    var iter := new FieldIter(fields);
    var words := new nat[2](_ => 0);
    Decoder.NothingSeen(words[..]);
    var fixedField: Option<nat>, fixedCount: nat := None, 0;
    ghost var s0, m, seen: set<nat> := s.Rest(), into, {};
    Decoder.RunningStart(fields, s0, into);
    var status := Decoder.More;
    while s.left > 0 && status.More?
      invariant s.Valid() && s.End() == old(s.End()) && s.left <= old(s.left)
      invariant iter.Valid() && iter.start == fields && fresh(iter) && fresh(words) && words.Length == 2
      invariant fixedCount <= PB_SIZE_MAX && Decoder.SeenBits(words[..], seen) && !status.Bad?
      invariant Decoder.Running(fields, s0, into, s.Rest(), State(m, seen, fixedField, fixedCount), status)
      invariant Holds(a[..], fields, base, m)
      invariant forall x: int :: 0 <= x < a.Length && !Touched(fields, s0, base, x) ==> a[x] == old(a[x])
      invariant status.More? ==> forall x: int :: Touched(fields, s.Rest(), base, x) ==> Touched(fields, s0, base, x)
      decreases status.More?, s.left
    {
      ghost var rest, st := s.Rest(), State(m, seen, fixedField, fixedCount);
      Decoder.RunningStep(fields, s0, into, rest, st);
      TouchedUnfold(fields, rest, st, base);
      status, fixedField, fixedCount :=
        DecodeRecord(s, a, iter, size, base, words, fixedField, fixedCount, m, seen);
      if status.Bad? { return false; }
      if status.More? {
        m, seen := Step(fields, rest, st).st.msg, Step(fields, rest, st).st.seen;
      }
    }
    ghost var st := State(m, seen, fixedField, fixedCount);
    Decoder.RunEnds(fields, s0, into, s.Rest(), st, status);
    if fixedField.Some? && fixedCount != iter.start[fixedField.value].arraySize { return false; }
    ok := Decoder.CheckRequired(iter, words, seen);
  }

  lemma TouchedUnfold(fields: seq<Field>, s: bytes, st: State, base: nat)
    requires s != []
    ensures forall x: int :: TouchedRecord(fields, s, base, x) ==> Touched(fields, s, base, x)
    ensures Step(fields, s, st).Next? ==> forall x: int ::
              Touched(fields, s[Step(fields, s, st).n..], base, x) ==> Touched(fields, s, base, x)
  {
    hide Step, RecordLength, TouchedRecord;
    if Step(fields, s, st).Next? { StepTakes(fields, s, st); }
  }

  // pb_decode, into a structure that held `was`. It writes inside the structure only, and
  // there only cells and data of fields.
  method Decode(s: IStream, a: array<byte>, fields: seq<Field>, ghost size: nat, base: nat, ghost was: Message)
    returns (ok: bool)
    requires s.Valid() && Placed(a, fields, size, base) && OldMsg(a[..], fields, base, was)
    modifies s, a
    ensures s.Valid() && s.End() <= old(s.End())
    ensures var r := Decoding.Decode(fields, old(s.Rest()), was);
            (ok <==> r.Ok?) && (ok ==> s.Consumed(r.n) && Holds(a[..], fields, base, r.value))
    ensures forall x: int ::
              0 <= x < a.Length && !InAny(fields, base, x) && !Touched(fields, old(s.Rest()), base, x) ==>
              a[x] == old(a[x])
    ensures forall x: int :: 0 <= x < a.Length && !(base <= x < base + size) ==> a[x] == old(a[x])
    decreases s.left, 10
  {
    hide Fits, Touched, InAny, Holds, OldMsg, DefaultMsg, DecMsg;
    ghost var rest := s.Rest();
    forall x: int
      ensures Touched(fields, rest, base, x) || InAny(fields, base, x) ==> base <= x < base + size
    {
      if InAny(fields, base, x) { AnyInside(fields, size, base, x); }
      if Touched(fields, rest, base, x) { TouchedInside(fields, size, rest, base, x); }
    }
    SetToDefaults(a, fields, size, base, was);
    ok := DecodeNoinit(s, a, fields, size, base, DefaultMsg(fields, was));
  }
}
