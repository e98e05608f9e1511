// pb_decode over an input stream with dynamic allocation. Whatever the input and however
// the allocator behaves, decoding changes nothing that the structure does not own, and
// what the structure owns afterwards is all that decoding left allocated. When it succeeds,
// the structure holds the message of Decoding; unless an allocation was denied, it fails
// only where Decoding fails.
module PointerDecoder {
  import opened Bits
  import opened Wire
  import opened Streams
  import opened Fields
  import opened FieldIterator
  import opened Encoding
  import opened Decoding
  import opened Heap
  import opened Release
  import opened Allocation
  import opened Contents
  import opened Schema
  import Decoder

  // ---------- default values ----------

  function ZeroSlot(f: Field): Slot {
    match f.htype
    case Required => One(Zero(f))
    case Optional => if f.sizeOffset != 0 then Opt(false, Zero(f)) else One(Zero(f))
    case Repeated => Many([])
    case Oneof => Union(0, VInt(0))
  }

  // Storage filled with zeros.
  function ZeroCell(f: Field): Cell
    decreases f, 1
  {
    if !f.atype.Static? then Ptr(0, 0)
    else if f.ltype.TSubmessage? then
      var zero := ZeroStruct(f.sub);
      Inline(seq(Entries(f), _ => zero), 0, false)
    else Plain(ZeroSlot(f))
  }

  function ZeroStruct(fields: seq<Field>): (m: Struct)
    ensures |m| == |fields|
    decreases fields, 0
  {
    seq(|fields|, i requires 0 <= i < |fields| => ZeroCell(fields[i]))
  }

  // Zeroed storage owns nothing, in whatever heap.
  lemma {:induction false} ZeroSep(fields: seq<Field>, h: Heap, tidy: bool)
    ensures Sep(fields, ZeroStruct(fields), h, tidy) && Reach(fields, ZeroStruct(fields), h) == {}
    decreases fields, 0
  {
    var m := ZeroStruct(fields);
    forall k | 0 <= k < |fields|
      ensures FieldSep(fields[k], m[k], h, tidy) && FieldReach(fields[k], m[k], h) == {}
    {
      ZeroFieldSep(fields[k], h, tidy);
    }
  }

  lemma {:induction false} ZeroFieldSep(f: Field, h: Heap, tidy: bool)
    ensures FieldSep(f, ZeroCell(f), h, tidy) && FieldReach(f, ZeroCell(f), h) == {}
    decreases f, 1
  {
    if f.atype.Static? && f.ltype.TSubmessage? {
      var items := ZeroCell(f).items;
      ZeroSep(f.sub, h, tidy);
      ZeroSep(f.sub, h, false);
      NoItemsLeft(f.sub, items, h);
      assert ItemsSep(f.sub, items, Used(f, 0), h, tidy);
    }
  }

  // Without arrays of a fixed count, defaults do not depend on what was there.
  lemma {:induction false} DefaultsAnew(fields: seq<Field>, i: nat, was: Message, was': Message)
    requires HeapFields(fields) && i <= |fields|
    ensures DefaultUpTo(fields, i, was) == DefaultUpTo(fields, i, was')
    ensures DefaultMsg(fields, was) == DefaultMsg(fields, was') || i < |fields|
    decreases fields, i
  {
    hide LayoutOk, Offset;
    if i > 0 {
      var offset := Offset(fields, i - 1);
      assert HeapField(fields[i - 1]);
      DefaultsAnew(fields, i - 1, was, was');
      DefaultAnew(fields[i - 1], Get(was, offset), Get(was', offset));
    }
  }

  lemma {:induction false} DefaultAnew(f: Field, was: Slot, was': Slot)
    requires HeapField(f)
    ensures DefaultSlot(f, was) == DefaultSlot(f, was')
    decreases f, 1
  {
    hide HeapFields;
    if f.ltype.TSubmessage? && f.atype.Static? {
      DefaultsAnew(f.sub, |f.sub|, AsMsg(ValueOf(was)), AsMsg(ValueOf(was')));
    }
  }

  lemma {:induction false} DefaultView(fields: seq<Field>, i: nat, m: Struct, h: Heap)
    requires i <= |fields| == |m|
    requires forall k :: 0 <= k < i ==>
               ViewField(fields[k], m[k], h) == DefaultSlot(fields[k], Get(map[], Offset(fields, k)))
    ensures ViewUpTo(fields, i, m, h) == DefaultUpTo(fields, i, map[])
  {
    hide ViewField, DefaultSlot, Offset;
    if i > 0 { DefaultView(fields, i - 1, m, h); }
  }

  // pb_message_set_to_defaults, of a structure that owns nothing. Pointers become null;
  // the entries of static arrays are left as they are, behind a count of zero.
  method SetToDefaults(fields: seq<Field>, m: Struct, ghost h: Heap) returns (m': Struct)
    requires HeapFields(fields) && Sep(fields, m, h, false) && Reach(fields, m, h) == {}
    ensures Sep(fields, m', h, true) && Reach(fields, m', h) == {}
    ensures ViewMsg(fields, m', h) == DefaultMsg(fields, map[])
    decreases fields, 0
  {
    hide FieldSep, FieldReach, HeapField, ViewField, DefaultSlot;
    if fields == [] { return []; }
    m' := m;
    var i := 0;
    while i < |fields|
      invariant 0 <= i <= |fields| && |m'| == |fields|
      invariant forall k :: 0 <= k < i ==> FieldSep(fields[k], m'[k], h, true)
      invariant forall k :: i <= k < |fields| ==> FieldSep(fields[k], m'[k], h, false)
      invariant forall k :: 0 <= k < |fields| ==> FieldReach(fields[k], m'[k], h) == {}
      invariant forall k :: 0 <= k < i ==>
                  ViewField(fields[k], m'[k], h) == DefaultSlot(fields[k], Get(map[], Offset(fields, k)))
    {
      var c := SetToDefault(fields[i], m'[i], h, Get(map[], Offset(fields, i)));
      m' := m'[i := c];
      i := i + 1;
    }
    DefaultView(fields, |fields|, m', h);
  }

  // pb_field_set_to_default
  method SetToDefault(f: Field, c: Cell, ghost h: Heap, ghost was: Slot) returns (c': Cell)
    requires HeapField(f) && FieldSep(f, c, h, false) && FieldReach(f, c, h) == {}
    ensures FieldSep(f, c', h, true) && FieldReach(f, c', h) == {}
    ensures ViewField(f, c', h) == DefaultSlot(f, was)
    decreases f, 1
  {
    if !f.atype.Static? {
      c' := Ptr(0, 0);
    } else if !f.ltype.TSubmessage? {
      c' := Plain(DefaultSlot(f, c.slot));
      DefaultAnew(f, c.slot, was);
    } else {
      NothingIn(f.sub, c.items, Used(f, c.count), h);
      if f.htype.Repeated? {
        c' := Inline(c.items, 0, c.has);
        NoItemsLeft(f.sub, c.items, h);
      } else {
        var m := SetToDefaults(f.sub, c.items[0], h);
        c' := Inline([m], c.count, false);
        NoItemsLeft(f.sub, [m], h);
        DefaultsAnew(f.sub, |f.sub|, map[], AsMsg(ValueOf(was)));
      }
    }
  }

  lemma NothingIn(fields: seq<Field>, items: seq<Struct>, used: nat, h: Heap)
    requires ItemsSep(fields, items, used, h, false) && ItemsReach(fields, items, h) == {}
    ensures forall k :: 0 <= k < |items| ==> Sep(fields, items[k], h, false) && Reach(fields, items[k], h) == {}
  {
    forall k | 0 <= k < |items|
      ensures Reach(fields, items[k], h) == {}
    {
      hide Sep, Reach;
      assert forall a :: a in Reach(fields, items[k], h) ==> a in ItemsReach(fields, items, h);
    }
  }

  // ---------- what a failure leaves ----------

  lemma Untidy(f: Field, c: Cell, h: Heap)
    requires FieldSep(f, c, h, true)
    ensures FieldSep(f, c, h, false)
  {
    FieldReachLive(f, c, h, true);
    FieldFrame(f, c, h, h, true, false);
  }

  lemma UntidyStruct(fields: seq<Field>, m: Struct, h: Heap, tidy: bool)
    requires Sep(fields, m, h, tidy)
    ensures Sep(fields, m, h, false)
  {
    ReachLive(fields, m, h, tidy);
    Frame(fields, m, h, h, tidy, false);
  }

  // ---------- text ----------

  // The text at p was left alone or reallocated.
  ghost predicate TextMoved(h: Heap, p: Addr, g: Heap, p': Addr) {
    || (p' == p && g == h)
    || (p' != 0 && (p' == p || p' !in h) && p' in g && TextBlock(g[p']) && g == Moved(h, p, p', g[p']))
  }

  // pb_dec_string and pb_dec_bytes for a pointer: the text replaces what `p` refers to.
  method DecodeText(s: IStream, mem: Memory, f: Field, p: Addr) returns (ok: bool, p': Addr)
    requires s.Valid() && f.atype.Pointer? && Text(f.ltype) && (p == 0 || (p in mem.live && TextBlock(mem.live[p])))
    modifies s, mem
    ensures s.Valid() && s.End() <= old(s.End())
    ensures ok ==> DecData(f, old(s.Rest())).Ok? && s.Consumed(DecData(f, old(s.Rest())).n)
    ensures ok ==> p' != 0 && TextAt(p', mem.live) == DecData(f, old(s.Rest())).value
    ensures ok || mem.denied || DecData(f, old(s.Rest())).Fail?
    ensures TextMoved(old(mem.live), p, mem.live, p')
  {
    hide DecVarint32, DecData, Takes;
    ghost var h, s0 := mem.live, s.Rest();
    p' := p;
    var got, size, _ := s.DecodeVarint32();
    if !got {
      NoData(f, s0);
      return false, p;
    }
    DataCase(f, s0, size);
    var allocSize := TextSize(f, size);
    if allocSize == 0 { return false, p; }
    var q := AllocateField(mem, p, allocSize, 1, Data(allocSize, [VRaw]));
    if q == 0 { return false, p; }
    p' := q;
    // the contents and the terminator or length are inside the allocation
    assert size + Extra(f) <= mem.live[q].unit;
    var data;
    ok, data := s.Read(size);
    if ok {
      mem.WriteValue(q, 0, VBytes(data));
      Rewritten(h, p, q, Data(allocSize, [VRaw]), mem.live[q]);
    }
  }

  lemma NoData(f: Field, s: bytes)
    requires DecVarint32(s).Fail?
    ensures DecData(f, s).Fail?
  {
    hide DecVarint32;
  }

  lemma DataCase(f: Field, s: bytes, size: nat)
    requires DecVarint32(s).Ok? && DecVarint32(s).value == size
    ensures var n := DecVarint32(s).n;
            DecData(f, s) == if size <= |s| - n && Takes(f, size) then Ok(Stored(f, s[n..][..size]), n + size) else Fail
  {
    hide DecVarint32, Takes;
    var n := DecVarint32(s).n;
    if size <= |s| - n { assert s[n..][..size] == s[n..n + size]; }
  }

  lemma Rewritten(h: Heap, p: Addr, q: Addr, b: Block, b': Block)
    ensures Moved(h, p, q, b)[q := b'] == Moved(h, p, q, b')
  {
  }

  // ---------- submessages ----------

  // What decoding a submessage makes of a structure that holds `base`.
  ghost function SubMsg(f: Field, s: bytes, base: Message): Read<Message> {
    match DecBlock(s)
    case Ok(data, n) => (match DecMsg(f.sub, data, base) case Ok(m, _) => Ok(m, n) case Fail => Fail)
    case Fail => Fail
  }

  lemma SubMsgValue(f: Field, s: bytes, slot: Slot)
    requires f.ltype.TSubmessage?
    ensures var r := SubMsg(f, s, BaseMsg(f, slot));
            DecValue(f, s, slot) == if r.Ok? then Ok(VMsg(r.value), r.n) else Fail
  {
    hide DecBlock, DecMsg, BaseMsg;
  }

  ghost function EntryBase(f: Field, m: Struct, h: Heap): Message {
    if f.htype.Repeated? then DefaultMsg(f.sub, map[]) else ViewMsg(f.sub, m, h)
  }

  // pb_dec_submessage. An array entry starts from its defaults and is released when it
  // fails; any other submessage is merged into what is there.
  method DecodeSubmessage(s: IStream, mem: Memory, f: Field, m: Struct) returns (ok: bool, m': Struct)
    requires s.Valid() && HeapField(f) && f.ltype.TSubmessage?
    requires Sep(f.sub, m, mem.live, !f.htype.Repeated?)
    requires f.htype.Repeated? ==> Reach(f.sub, m, mem.live) == {}
    modifies s, mem
    ensures s.Valid() && s.End() <= old(s.End())
    ensures var r := SubMsg(f, old(s.Rest()), old(EntryBase(f, m, mem.live)));
            && (ok ==> r.Ok? && s.Consumed(r.n) && r.value == ViewMsg(f.sub, m', mem.live))
            && (ok || mem.denied || r.Fail?)
    ensures Sep(f.sub, m', mem.live, ok) && Others(f.sub, m', mem.live) == Others(f.sub, m, old(mem.live))
    decreases s.left, 1
  {
    hide Sep, Reach, DecBlock, HeapFields, DecMsg, ViewMsg, DefaultMsg;
    m' := m;
    var got, sub := s.MakeSubstream();
    if !got {
      UntidyStruct(f.sub, m, mem.live, !f.htype.Repeated?);
      return false, m;
    }
    if f.htype.Repeated? {
      ok, m' := Decode(sub, mem, f.sub, m);
    } else {
      ok, m' := DecodeNoinit(sub, mem, f.sub, m);
    }
    var closed := s.CloseSubstream(sub);
  }

  // A submessage decoded into entry k of an allocated array.
  method DecodeEntry(s: IStream, mem: Memory, f: Field, p: Addr, ghost count: nat, k: nat) returns (ok: bool)
    requires s.Valid() && HeapField(f) && f.ltype.TSubmessage? && p != 0 && p in mem.live
    requires BlockSep(f, p, count, mem.live, true) && k < |mem.live[p].items|
    requires f.htype.Repeated? ==> Reach(f.sub, mem.live[p].items[k], mem.live) == {}
    modifies s, mem
    ensures s.Valid() && s.End() <= old(s.End())
    ensures p in mem.live && BlockSep(f, p, count, mem.live, ok)
    ensures FieldOthers(f, Ptr(p, count), mem.live) == FieldOthers(f, Ptr(p, count), old(mem.live))
    ensures var items, items' := old(mem.live[p].items), mem.live[p].items;
            var r := SubMsg(f, old(s.Rest()), EntryBase(f, items[k], old(mem.live)));
            && |items'| == |items|
            && (ok ==> r.Ok? && s.Consumed(r.n))
            && (ok ==>
                  && |ViewItems(f.sub, items', k + 1, mem.live)| == k + 1
                  && ViewItems(f.sub, items', k + 1, mem.live)[..k] == ViewItems(f.sub, items, k, old(mem.live))
                  && ViewItems(f.sub, items', k + 1, mem.live)[k] == VMsg(r.value))
            && (ok || mem.denied || r.Fail?)
    decreases s.left, 2
  {
    hide Sep, Reach, ItemsSep, ItemsReach, ViewMsg, ViewItems, SubMsg, EntryBase;
    ghost var h := mem.live;
    var m := mem.live[p].items[k];
    EntrySep(f, p, count, k, h, true);
    if f.htype.Repeated? { UntidyStruct(f.sub, m, h, true); }
    ok, m := DecodeSubmessage(s, mem, f, m);
    SetEntry(f, p, count, k, m, h, mem.live, true, ok);
    ghost var g := mem.live;
    mem.WriteEntry(p, k, m);
    ViewFrame(f.sub, m, g, mem.live, ok);
    SetViewItem(f.sub, h[p].items, k, m, |h[p].items|, h, mem.live, true);
  }

  lemma EntrySep(f: Field, p: Addr, count: nat, k: nat, h: Heap, tidy: bool)
    requires f.ltype.TSubmessage? && p in h && BlockSep(f, p, count, h, tidy) && k < |h[p].items|
    ensures Sep(f.sub, h[p].items[k], h, tidy)
  {
    hide Sep, Reach, ItemsReach;
    assert ItemsSep(f.sub, h[p].items, |h[p].items|, h, tidy);
  }

  // ---------- one field ----------

  // decode_static_field, of a submessage or an array of them
  method DecodeStaticSubmessage(s: IStream, mem: Memory, f: Field, c: Cell) returns (ok: bool, c': Cell)
    requires s.Valid() && HeapField(f) && f.atype.Static? && f.ltype.TSubmessage? && FieldSep(f, c, mem.live, true)
    modifies s, mem
    ensures s.Valid() && s.End() <= old(s.End())
    ensures var slot := ViewField(f, c, old(mem.live));
            var r := DecValue(f, old(s.Rest()), slot);
            && (ok ==> r.Ok? && s.Consumed(r.n) && ViewField(f, c', mem.live) == StoreValue(f, slot, 0, r.value))
            && (ok ==> f.htype.Repeated? ==> |ItemsOf(slot)| < f.arraySize)
            && (ok || mem.denied || r.Fail? || (f.htype.Repeated? && |ItemsOf(slot)| >= f.arraySize))
    ensures FieldSep(f, c', mem.live, ok) && FieldOthers(f, c', mem.live) == FieldOthers(f, c, old(mem.live))
    decreases s.left, 3
  {
    hide FieldSep, FieldReach, Sep, Reach, HeapField, SubMsg, DecValue, ViewField, ViewMsg, ViewItems, EntryBase;
    ghost var h, slot := mem.live, ViewField(f, c, mem.live);
    HeapBasics(f);
    StaticCell(f, c, mem.live);
    var k := if f.htype.Repeated? then c.count else 0;
    if f.htype.Repeated? && c.count >= f.arraySize {
      Overfull(f, c, mem.live);
      Wrap(c.count + 1, PB_SIZE_MAX + 1);
      return false, Inline(c.items, (c.count + 1) % (PB_SIZE_MAX + 1), c.has);
    }
    SpareEntry(f, c, k, h);
    SubMsgValue(f, s.Rest(), slot);
    var m;
    ok, m := DecodeSubmessage(s, mem, f, c.items[k]);
    var has := if f.htype.Optional? && f.sizeOffset != 0 then true else c.has;
    c' := Inline(c.items[k := m], if f.htype.Repeated? then c.count + 1 else c.count, has);
    SetStaticEntry(f, c, k, m, has, h, mem.live, ok);
    StaticView(f, c, k, m, has, h, mem.live);
  }

  lemma HeapBasics(f: Field)
    requires HeapField(f)
    ensures !f.htype.Oneof? && (f.htype.Repeated? ==> f.sizeOffset != 0) && !f.atype.Callback?
    ensures 1 <= f.dataSize <= PB_SIZE_MAX <= SIZE_MAX && f.arraySize < PB_SIZE_MAX
    ensures f.ltype.TSubmessage? ==> HeapFields(f.sub)
  {
    hide HeapFields;
  }

  // decode_static_field, of anything else: such a field owns nothing
  method DecodeStaticScalar(s: IStream, wireType: nat, f: Field, c: Cell, ghost h: Heap) returns (ok: bool, c': Cell)
    requires s.Valid() && HeapField(f) && f.atype.Static? && !f.ltype.TSubmessage? && FieldSep(f, c, h, true)
               && c.Plain?
    modifies s
    ensures s.Valid() && s.End() <= old(s.End())
    ensures var r := DecField(f, wireType, old(s.Rest()), c.slot, 0);
            && (ok <==> r.Ok?)
            && (ok ==> s.Consumed(r.n) && c' == Plain(r.value.0) && r.value.1 == 0)
    ensures c'.Plain? && FieldSep(f, c', h, ok) && FieldOthers(f, c', h) == FieldOthers(f, c, h)
  {
    hide DecField;
    NoCounter(f, wireType, s.Rest(), c.slot);
    var slot, counter;
    ghost var depth;
    ok, slot, counter, depth := Decoder.DecodeField(s, wireType, f, c.slot, 0);
    c' := Plain(slot);
  }

  lemma {:induction false} PackedNoCounter(f: Field, data: bytes, slot: Slot)
    requires !FixedCount(f) && DecPacked(f, data, slot, 0).Some?
    ensures DecPacked(f, data, slot, 0).value.1 == 0
    decreases |data|
  {
    hide DecScalar;
    if data != [] {
      var r := DecScalar(f, data);
      PackedNoCounter(f, data[r.n..], PutItem(f, slot, 0, r.value));
    }
  }

  // The counter of arrays with a fixed count is not used by other fields.
  lemma NoCounter(f: Field, wireType: nat, s: bytes, slot: Slot)
    requires !FixedCount(f)
    ensures DecField(f, wireType, s, slot, 0).Ok? ==> DecField(f, wireType, s, slot, 0).value.1 == 0
  {
    hide DecPacked, DecBlock, DecValue;
    var block := DecBlock(s);
    if block.Ok? && DecPacked(f, block.value, slot, 0).Some? { PackedNoCounter(f, block.value, slot); }
  }

  lemma StaticCell(f: Field, c: Cell, h: Heap)
    requires f.atype.Static? && f.ltype.TSubmessage? && FieldSep(f, c, h, true)
    ensures c.Inline?
    ensures |ItemsOf(ViewField(f, c, h))| == if f.htype.Repeated? then c.count else 0
  {
    hide ItemsSep, ItemsReach;
  }

  // The contents before and after entry k of a static submessage is replaced.
  lemma StaticView(f: Field, c: Cell, k: nat, m: Struct, has: bool, h: Heap, g: Heap)
    requires f.atype.Static? && f.ltype.TSubmessage? && FieldSep(f, c, h, true)
    requires if f.htype.Repeated? then k == c.count < f.arraySize else k == 0
    requires k < |c.items| && has == if f.htype.Optional? && f.sizeOffset != 0 then true else c.has
    requires f.htype.Repeated? ==> f.sizeOffset != 0
    requires !f.htype.Oneof?
    requires forall l :: 0 <= l < |c.items| && l != k ==> Same(h, g, Reach(f.sub, c.items[l], h))
    ensures var c' := Inline(c.items[k := m], if f.htype.Repeated? then c.count + 1 else c.count, has);
            var slot := ViewField(f, c, h);
            && BaseMsg(f, slot) == EntryBase(f, c.items[k], h)
            && ViewField(f, c', g) == StoreValue(f, slot, 0, VMsg(ViewMsg(f.sub, m, g)))
  {
    hide ItemsSep, Sep, Reach, ViewMsg, DefaultMsg;
    SetViewItem(f.sub, c.items, k, m, Used(f, c.count), h, g, true);
  }

  // The count of a full array goes one past its end.
  lemma Overfull(f: Field, c: Cell, h: Heap)
    requires HeapField(f) && f.atype.Static? && f.ltype.TSubmessage? && f.htype.Repeated?
    requires FieldSep(f, c, h, true) && c.count >= f.arraySize
    ensures c.Inline? && c.count == f.arraySize < PB_SIZE_MAX
    ensures FieldSep(f, Inline(c.items, c.count + 1, c.has), h, false)
    ensures FieldReach(f, Inline(c.items, c.count + 1, c.has), h) == FieldReach(f, c, h)
  {
    hide ItemsSep, ItemsReach, HeapFields;
    FieldReachLive(f, c, h, true);
    FieldFrame(f, c, h, h, true, false);
  }

  // What decoding relies on in entry k of a static submessage.
  lemma SpareEntry(f: Field, c: Cell, k: nat, h: Heap)
    requires f.atype.Static? && f.ltype.TSubmessage? && FieldSep(f, c, h, true)
    requires if f.htype.Repeated? then k == c.count < f.arraySize else k == 0
    ensures c.Inline? && k < |c.items| && Sep(f.sub, c.items[k], h, !f.htype.Repeated?)
    ensures f.htype.Repeated? ==> Reach(f.sub, c.items[k], h) == {}
  {
    assert ItemsSep(f.sub, c.items, Used(f, c.count), h, true);
  }

  lemma SetStaticEntry(f: Field, c: Cell, k: nat, m: Struct, has: bool, h: Heap, g: Heap, tidy: bool)
    requires f.atype.Static? && f.ltype.TSubmessage? && FieldSep(f, c, h, true)
    requires if f.htype.Repeated? then k == c.count < f.arraySize else k == 0
    requires k < |c.items| && Sep(f.sub, m, g, tidy) && Others(f.sub, m, g) == Others(f.sub, c.items[k], h)
    ensures var c' := Inline(c.items[k := m], if f.htype.Repeated? then c.count + 1 else c.count, has);
            FieldSep(f, c', g, tidy) && FieldOthers(f, c', g) == FieldOthers(f, c, h)
    ensures forall l :: 0 <= l < |c.items| && l != k ==> Same(h, g, Reach(f.sub, c.items[l], h))
  {
    hide ItemsSep, ItemsReach, Sep, Reach;
    var c' := Inline(c.items[k := m], if f.htype.Repeated? then c.count + 1 else c.count, has);
    SetItem(f.sub, c.items, k, m, Used(f, c.count), Used(f, c'.count), h, g, true, tidy);
    assert ItemsOthers(f.sub, c'.items, g) == ItemsOthers(f.sub, c.items, h);
  }

  // The entries of an allocation that p refers to.
  ghost function EntriesAt(p: Addr, h: Heap): seq<Struct> {
    if p != 0 && p in h && h[p].Structs? then h[p].items else []
  }

  // An allocation moved from p to q, from an owner of {p} + r to one of {q} + r'.
  lemma OwnerMoved(p: Addr, q: Addr, block: Block, h: Heap, r: set<Addr>)
    requires q != 0 && (q == p || q !in h) && (p == 0 || p in h) && r <= h.Keys && p !in r
    ensures var g := Moved(h, p, q, block);
            Same(h, g, r) && q !in r && g - ({q} + r) == h - ((if p == 0 then {} else {p}) + r)
  {
  }

  // An array grows by one entry that owns nothing, and may move.
  lemma Grown(f: Field, p: Addr, count: nat, q: Addr, m: Struct, h: Heap, tidy: bool)
    requires f.ltype.TSubmessage? && q != 0 && (q == p || q !in h)
    requires if p == 0 then count == 0 else p in h && BlockSep(f, p, count, h, tidy)
    requires f.htype.Repeated? || p == 0
    requires Sep(f.sub, m, map[], tidy) && Reach(f.sub, m, map[]) == {}
    ensures var items := EntriesAt(p, h);
            var g := Moved(h, p, q, Structs(items + [m]));
            && BlockSep(f, q, if f.htype.Repeated? then count + 1 else count, g, tidy)
            && Reach(f.sub, m, g) == {}
            && FieldOthers(f, Ptr(q, count + 1), g) == FieldOthers(f, Ptr(p, count), h)
            && ViewItems(f.sub, items + [m], |items|, g) == ViewItems(f.sub, items, |items|, h)
            && ViewMsg(f.sub, m, g) == ViewMsg(f.sub, m, map[])
  {
    hide Sep, Reach, ItemsSep, ItemsReach, ViewMsg, ViewItems;
    var items, g := EntriesAt(p, h), Moved(h, p, q, Structs(EntriesAt(p, h) + [m]));
    var r := EntriesReach(f, p, h);
    EntriesKept(f, p, count, h, tidy);
    OwnerMoved(p, q, Structs(items + [m]), h, r);
    assert && ItemsSep(f.sub, items + [m], |items| + 1, g, tidy)
           && ItemsReach(f.sub, items + [m], g) == r && Reach(f.sub, m, g) == {} by {
      ItemsFrame(f.sub, items, |items|, h, g, tidy, tidy);
      Frame(f.sub, m, map[], g, tidy, tidy) by { assert Same(map[], g, {}); }
      OneMore(f.sub, items, m, g, tidy);
    }
    ViewItemsFrame(f.sub, items, |items|, |items|, h, g, tidy);
    FirstItems(f.sub, items, m, g);
    ViewFrame(f.sub, m, map[], g, tidy);
    Owned(f, q, count + 1, g);
    if p != 0 { Owned(f, p, count, h); }
  }

  lemma FirstItems(fields: seq<Field>, items: seq<Struct>, m: Struct, h: Heap)
    ensures ViewItems(fields, items + [m], |items|, h) == ViewItems(fields, items, |items|, h)
  {
    hide ViewMsg;
  }

  ghost function EntriesReach(f: Field, p: Addr, h: Heap): set<Addr> {
    ItemsReach(f.sub, EntriesAt(p, h), h)
  }

  lemma EntriesKept(f: Field, p: Addr, count: nat, h: Heap, tidy: bool)
    requires f.ltype.TSubmessage?
    requires p == 0 || (p in h && BlockSep(f, p, count, h, tidy))
    ensures var items := EntriesAt(p, h);
            && ItemsSep(f.sub, items, |items|, h, tidy) && EntriesReach(f, p, h) <= h.Keys
            && (if p == 0 then items == [] && EntriesReach(f, p, h) == {}
                else p !in EntriesReach(f, p, h) && items == h[p].items)
            && (p != 0 && f.htype.Repeated? ==> |items| == count)
  {
    var items := EntriesAt(p, h);
    hide Sep, Reach;
    if p == 0 {
      NoItemsLeft(f.sub, items, h);
    }
    assert ItemsSep(f.sub, items, |items|, h, tidy);
    ItemsReachLive(f.sub, items, |items|, h, tidy);
  }

  lemma OneMore(fields: seq<Field>, items: seq<Struct>, m: Struct, h: Heap, tidy: bool)
    requires ItemsSep(fields, items, |items|, h, tidy) && Sep(fields, m, h, tidy) && Reach(fields, m, h) == {}
    ensures ItemsSep(fields, items + [m], |items| + 1, h, tidy)
    ensures ItemsReach(fields, items + [m], h) == ItemsReach(fields, items, h)
  {
    hide Sep, Reach;
    var items' := items + [m];
    forall k | 0 <= k < |items'|
      ensures k < |items| ==> items'[k] == items[k]
      ensures Sep(fields, items'[k], h, tidy)
    {
    }
    assert forall a :: a in ItemsReach(fields, items, h) ==> a in ItemsReach(fields, items', h) by {
      forall a | a in ItemsReach(fields, items, h)
        ensures a in ItemsReach(fields, items', h)
      {
        var k :| 0 <= k < |items| && a in Reach(fields, items[k], h);
        assert a in Reach(fields, items'[k], h);
      }
    }
  }

  // The allocation for one more submessage: the array is reallocated, and the new entry
  // zeroed and set to its defaults.
  method GrowEntries(mem: Memory, f: Field, c: Cell) returns (q: Addr)
    requires HeapField(f) && f.atype.Pointer? && f.ltype.TSubmessage?
    requires FieldSep(f, c, mem.live, true) && c.Ptr? && c.count < PB_SIZE_MAX && (f.htype.Repeated? || c == Ptr(0, 0))
    modifies mem
    ensures q == 0 ==> mem.live == old(mem.live) && mem.denied
    ensures q != 0 ==> q in mem.live && mem.live[q].Structs? && BlockSep(f, q, Enlarged(f, c.count), mem.live, true)
    ensures q != 0 ==> FieldOthers(f, Ptr(q, Enlarged(f, c.count)), mem.live) == FieldOthers(f, c, old(mem.live))
    ensures q != 0 ==> var items, items' := EntriesAt(c.p, old(mem.live)), mem.live[q].items;
                       var n := |items|;
                       && |items'| == n + 1
                       && ViewItems(f.sub, items', n, mem.live) == ViewItems(f.sub, items, n, old(mem.live))
                       && Reach(f.sub, items'[n], mem.live) == {}
                       && ViewMsg(f.sub, items'[n], mem.live) == DefaultMsg(f.sub, map[])
  {
    hide Sep, Reach, ItemsSep, ItemsReach, FieldSep, FieldReach, BlockSep, HeapFields, HeapField, ViewMsg, ViewItems,
      DefaultMsg;
    ghost var h := mem.live;
    HeapBasics(f);
    EntriesCell(f, c, h, true);
    var items := if c.p == 0 then [] else mem.live[c.p].items;
    var raw: Struct := *;
    q := AllocateField(mem, c.p, f.dataSize, c.count + 1, Structs(items + [raw]));
    if q == 0 { return; }
    ZeroSep(f.sub, map[], false);
    var m := SetToDefaults(f.sub, ZeroStruct(f.sub), map[]);
    mem.WriteEntry(q, |items|, m);
    assert (items + [raw])[|items| := m] == items + [m];
    Rewritten(h, c.p, q, Structs(items + [raw]), mem.live[q]);
    Grown(f, c.p, c.count, q, m, h, true);
    PointerReach(f, q, c.count + 1, Enlarged(f, c.count), mem.live);
  }

  function Enlarged(f: Field, count: nat): nat {
    if f.htype.Repeated? then count + 1 else count
  }

  lemma PointerReach(f: Field, p: Addr, count: nat, count': nat, h: Heap)
    ensures FieldReach(f, Ptr(p, count), h) == FieldReach(f, Ptr(p, count'), h)
  {
  }

  // A submessage appended to an allocated array, or put in a new allocation.
  method AppendSubmessage(s: IStream, mem: Memory, f: Field, c: Cell) returns (ok: bool, c': Cell)
    requires s.Valid() && HeapField(f) && f.atype.Pointer? && f.ltype.TSubmessage?
    requires FieldSep(f, c, mem.live, true) && c.Ptr? && c.count < PB_SIZE_MAX && (f.htype.Repeated? || c == Ptr(0, 0))
    modifies s, mem
    ensures s.Valid() && s.End() <= old(s.End())
    ensures var slot := ViewField(f, c, old(mem.live));
            var r := DecValue(f, old(s.Rest()), slot);
            && (ok ==> r.Ok? && s.Consumed(r.n) && ViewField(f, c', mem.live) == StoreValue(f, slot, 0, r.value))
            && (ok || mem.denied || r.Fail?)
    ensures FieldSep(f, c', mem.live, ok) && FieldOthers(f, c', mem.live) == FieldOthers(f, c, old(mem.live))
    decreases s.left, 3
  {
    hide Sep, Reach, ItemsSep, ItemsReach, FieldSep, FieldReach, BlockSep, HeapFields, HeapField, ViewField, ViewMsg,
      ViewItems, SubMsg, DecValue, DefaultMsg;
    ghost var h, slot := mem.live, ViewField(f, c, mem.live);
    HeapBasics(f);
    EntriesView(f, c, h, true);
    SubMsgValue(f, s.Rest(), slot);
    var q := GrowEntries(mem, f, c);
    if q == 0 {
      Untidy(f, c, mem.live);
      return false, c;
    }
    c' := Ptr(q, Enlarged(f, c.count));
    assert c'.count <= PB_SIZE_MAX;
    ok := DecodeEntry(s, mem, f, q, c'.count, |mem.live[q].items| - 1);
    EntriesCell(f, c', mem.live, ok);
    EntriesView(f, c', mem.live, ok);
  }

  // What a pointer to submessages owns.
  lemma EntriesCell(f: Field, c: Cell, h: Heap, tidy: bool)
    requires f.atype.Pointer? && f.ltype.TSubmessage?
    ensures c.Ptr? && c.p != 0 && c.p in h && BlockSep(f, c.p, c.count, h, tidy) && c.count <= PB_SIZE_MAX ==>
              FieldSep(f, c, h, tidy)
    ensures FieldSep(f, c, h, tidy) ==>
              c.Ptr? && (if c.p == 0 then c.count == 0
                         else c.p in h && h[c.p].Structs? && BlockSep(f, c.p, c.count, h, tidy))
  {
    if FieldSep(f, c, h, tidy) && c.p != 0 { assert BlockSep(f, c.p, c.count, h, tidy); }
  }

  // What an allocation of submessages holds.
  lemma EntriesView(f: Field, c: Cell, h: Heap, tidy: bool)
    requires f.atype.Pointer? && f.ltype.TSubmessage? && FieldSep(f, c, h, tidy)
    ensures var items := EntriesAt(c.p, h);
            && |items| == (if c.p == 0 then 0 else if f.htype.Repeated? then c.count else 1)
            && (f.htype.Repeated? ==> ViewField(f, c, h) == Many(ViewItems(f.sub, items, |items|, h)))
            && (!f.htype.Repeated? && c.p != 0 ==> ViewField(f, c, h) == Opt(true, ViewItems(f.sub, items, 1, h)[0]))
  {
    hide ItemsSep, ItemsReach, ViewItems;
  }

  // A text appended to an array: the new pointer is null before it is decoded.
  method AppendText(s: IStream, mem: Memory, f: Field, c: Cell) returns (ok: bool, c': Cell)
    requires s.Valid() && HeapField(f) && f.atype.Pointer? && f.htype.Repeated? && Text(f.ltype)
    requires FieldSep(f, c, mem.live, true) && c.count < PB_SIZE_MAX
    modifies s, mem
    ensures s.Valid() && s.End() <= old(s.End())
    ensures var slot := ViewField(f, c, old(mem.live));
            var r := DecScalar(f, old(s.Rest()));
            && (ok ==> r.Ok? && s.Consumed(r.n) && ViewField(f, c', mem.live) == StoreValue(f, slot, 0, r.value))
            && (ok || mem.denied || r.Fail?)
    ensures FieldSep(f, c', mem.live, ok) && FieldOthers(f, c', mem.live) == FieldOthers(f, c, old(mem.live))
  {
    hide FieldSep, FieldReach, HeapFields, HeapField, DecData, ViewField;
    ghost var h := mem.live;
    HeapBasics(f);
    TextsCell(f, c, h);
    var ptrs := if c.p == 0 then [] else mem.live[c.p].ptrs;
    var raw: Addr := *;
    var q := AllocateField(mem, c.p, f.dataSize, c.count + 1, Pointers(ptrs + [raw]));
    if q == 0 {
      Untidy(f, c, h);
      return false, c;
    }
    mem.WritePointer(q, |ptrs|, 0);
    assert (ptrs + [raw])[|ptrs| := 0] == ptrs + [0];
    Rewritten(h, c.p, q, Pointers(ptrs + [raw]), mem.live[q]);
    ghost var g := mem.live;
    var t;
    ok, t := DecodeText(s, mem, f, 0);
    ghost var g' := mem.live;
    mem.WritePointer(q, |ptrs|, t);
    assert (ptrs + [0])[|ptrs| := t] == ptrs + [t];
    c' := Ptr(q, c.count + 1);
    TextAppended(f, c, h, q, ptrs, t, g, g', mem.live);
    Untidy(f, c', mem.live);
  }

  lemma TextsCell(f: Field, c: Cell, h: Heap)
    requires f.atype.Pointer? && f.htype.Repeated? && Text(f.ltype) && FieldSep(f, c, h, true)
    ensures c.Ptr? && (c.p == 0 || (c.p in h && h[c.p].Pointers? && |h[c.p].ptrs| == c.count))
  {
    hide TextSep, ItemsSep;
  }

  lemma TextAppended(f: Field, c: Cell, h: Heap, q: Addr, ptrs: seq<Addr>, t: Addr, g: Heap, g1: Heap, g2: Heap)
    requires f.atype.Pointer? && f.htype.Repeated? && Text(f.ltype) && !f.ltype.TSubmessage? && f.sizeOffset != 0
    requires FieldSep(f, c, h, true) && c.count < PB_SIZE_MAX && TextsAt(c.p, h, ptrs)
    requires q != 0 && (q == c.p || q !in h) && g == Moved(h, c.p, q, Pointers(ptrs + [0]))
    requires TextMoved(g, 0, g1, t) && g2 == g1[q := Pointers(ptrs + [t])]
    ensures FieldSep(f, Ptr(q, c.count + 1), g2, true)
    ensures FieldOthers(f, Ptr(q, c.count + 1), g2) == FieldOthers(f, c, h)
    ensures ViewField(f, Ptr(q, c.count + 1), g2) == PutItem(f, ViewField(f, c, h), 0, TextAt(t, g1))
  {
    var r := TextReach(ptrs);
    assert r <= h.Keys && c.p !in r && |ptrs| == c.count && (c.p == 0 || (c.p in h && TextSep(c.p, ptrs, h)));
    OwnerMoved(c.p, q, Pointers(ptrs + [0]), h, r);
    Owned(f, q, c.count + 1, g2);
    if c.p != 0 { Owned(f, c.p, c.count, h); }
    assert FieldReach(f, c, h) == (if c.p == 0 then {} else {c.p}) + r;
    OneMoreText(c.p, q, ptrs, t, h, g, g1);
    assert FieldSep(f, Ptr(q, c.count + 1), g2, true);
    assert ptrs[..c.count] == ptrs && (ptrs + [t])[..c.count + 1] == ptrs + [t];
  }

  ghost predicate TextsAt(p: Addr, h: Heap, ptrs: seq<Addr>) {
    if p == 0 then ptrs == [] else p in h && h[p] == Pointers(ptrs)
  }

  lemma OneMoreText(p: Addr, q: Addr, ptrs: seq<Addr>, t: Addr, h: Heap, g: Heap, g1: Heap)
    requires q != 0 && (p == 0 ==> ptrs == []) && TextSep(p, ptrs, h) && Same(h, g, TextReach(ptrs))
               && q !in TextReach(ptrs)
    requires q in g && g[q].Pointers? && TextMoved(g, 0, g1, t)
    ensures var g2 := g1[q := Pointers(ptrs + [t])];
            && TextSep(q, ptrs + [t], g2)
            && g2 - ({q} + TextReach(ptrs + [t])) == g - ({q} + TextReach(ptrs))
            && ViewTexts(ptrs + [t], g2) == ViewTexts(ptrs, h) + [TextAt(t, g1)]
  {
    var r, x, g2 := TextReach(ptrs), (if t == 0 then {} else {t}), g1[q := Pointers(ptrs + [t])];
    assert TextReach(ptrs + [t]) == r + x;
    assert forall k :: 0 <= k < |ptrs| && ptrs[k] != 0 ==> ptrs[k] in r;
    assert q != t && t !in r;
    assert forall a :: a in r ==> a in g2 && g2[a] == h[a];
    assert g2 - ({q} + (r + x)) == g - ({q} + r);
  }

  // An allocation for scalars, owned in place of the one at c.p.
  lemma ScalarsMoved(f: Field, c: Cell, q: Addr, unit: nat, values: seq<Value>, count: nat, h: Heap)
    requires f.atype.Pointer? && !f.ltype.TSubmessage? && FieldSep(f, c, h, true)
    requires if f.htype.Repeated? then !Text(f.ltype) && unit == f.dataSize && count <= |values| else |values| == 1
    requires q != 0 && (q == c.p || q !in h) && count <= PB_SIZE_MAX
    ensures var g := Moved(h, c.p, q, Data(unit, values));
            && FieldSep(f, Ptr(q, count), g, true) && FieldOthers(f, Ptr(q, count), g) == FieldOthers(f, c, h)
            && ViewField(f, Ptr(q, count), g) ==
               if f.htype.Repeated? then Many(values[..count]) else Opt(true, values[0])
  {
    hide ItemsSep, ItemsReach, TextSep, ViewItems, ViewTexts;
    var g := Moved(h, c.p, q, Data(unit, values));
    assert c.Ptr? && (c.p == 0 || (c.p in h && h[c.p].Data?));
    assert FieldSep(f, Ptr(q, count), g, true);
    OwnerMoved(c.p, q, Data(unit, values), h, {});
    Owned(f, q, count, g);
    if c.p != 0 { Owned(f, c.p, c.count, h); }
    assert FieldReach(f, c, h) == if c.p == 0 then {} else {c.p};
  }

  // The allocated array has room for `capacity` entries, some of them in use.
  ghost predicate Array(f: Field, c: Cell, capacity: nat, h: Heap) {
    && c.Ptr? && c.count <= capacity <= PB_SIZE_MAX
    && (if c.p == 0 then capacity == 0
        else c.p in h && h[c.p].Data? && h[c.p].unit == f.dataSize && capacity <= |h[c.p].values|)
  }

  function ValuesAt(p: Addr, h: Heap): seq<Value> {
    if p != 0 && p in h && h[p].Data? then h[p].values else []
  }

  // An array resized to n entries.
  function Resized(values: seq<Value>, n: nat): (r: seq<Value>)
    ensures |r| == n
  {
    seq(n, k requires 0 <= k < n => if k < |values| then values[k] else VRaw)
  }

  // What an array of scalars holds.
  lemma ArrayView(f: Field, c: Cell, h: Heap)
    requires f.atype.Pointer? && f.htype.Repeated? && !Text(f.ltype) && !f.ltype.TSubmessage? && FieldSep(f, c, h, true)
    ensures c.Ptr? && c.count <= |ValuesAt(c.p, h)| && ViewField(f, c, h) == Many(ValuesAt(c.p, h)[..c.count])
    ensures c.p != 0 ==> c.p in h && h[c.p].Data? && h[c.p].unit == f.dataSize
  {
    hide ViewItems, ViewTexts;
  }

  method AppendScalar(s: IStream, mem: Memory, f: Field, c: Cell) returns (ok: bool, c': Cell)
    requires s.Valid() && HeapField(f) && f.atype.Pointer? && f.htype.Repeated?
    requires !Text(f.ltype) && !f.ltype.TSubmessage?
    requires FieldSep(f, c, mem.live, true) && c.count < PB_SIZE_MAX
    modifies s, mem
    ensures s.Valid() && s.End() <= old(s.End())
    ensures var slot := ViewField(f, c, old(mem.live));
            var r := DecScalar(f, old(s.Rest()));
            && (ok ==> r.Ok? && s.Consumed(r.n) && ViewField(f, c', mem.live) == StoreValue(f, slot, 0, r.value))
            && (ok || mem.denied || r.Fail?)
    ensures FieldSep(f, c', mem.live, ok) && FieldOthers(f, c', mem.live) == FieldOthers(f, c, old(mem.live))
  {
    hide DecScalar, FieldSep, FieldReach, HeapFields, ViewField;
    ghost var h := mem.live;
    ArrayView(f, c, h);
    var n := c.count + 1;
    var values := if c.p == 0 then [] else mem.live[c.p].values;
    var q := AllocateField(mem, c.p, f.dataSize, n, Data(f.dataSize, Resized(values, n)));
    if q == 0 {
      Untidy(f, c, h);
      return false, c;
    }
    ScalarsMoved(f, c, q, f.dataSize, Resized(values, n), n, h);
    c' := Ptr(q, n);
    var v;
    ok, v := Decoder.DecodeScalar(s, f);
    if ok {
      mem.WriteValue(q, c.count, v);
      ghost var values' := Resized(values, n)[c.count := v];
      assert mem.live == Moved(h, c.p, q, Data(f.dataSize, values'));
      ScalarsMoved(f, c, q, f.dataSize, values', n, h);
      assert values' == values[..c.count] + [v];
    } else {
      Untidy(f, c', mem.live);
    }
  }

  // Room for one more entry of a packed run of which `left` bytes remain.
  method Reserve(mem: Memory, f: Field, c: Cell, capacity: nat, left: nat) returns (ok: bool, c': Cell, capacity': nat)
    requires HeapField(f) && f.atype.Pointer? && f.htype.Repeated? && Packable(f.ltype) && left > 0
    requires FieldSep(f, c, mem.live, true) && Array(f, c, capacity, mem.live)
    modifies mem
    ensures FieldSep(f, c', mem.live, true) && Array(f, c', capacity', mem.live)
    ensures c'.count == c.count && (ok ==> c.count < capacity')
    ensures ok || mem.denied || c.count == PB_SIZE_MAX
    ensures FieldOthers(f, c', mem.live) == FieldOthers(f, c, old(mem.live))
    ensures ViewField(f, c', mem.live) == ViewField(f, c, old(mem.live))
  {
    hide FieldSep, FieldReach, HeapFields, ViewField;
    ghost var h := mem.live;
    ArrayView(f, c, h);
    if c.count == PB_SIZE_MAX { return false, c, capacity; }
    if c.count + 1 > capacity {
      var n := Grow(c.count, capacity, left, f.dataSize);
      var values := if c.p == 0 then [] else mem.live[c.p].values;
      var q := AllocateField(mem, c.p, f.dataSize, n, Data(f.dataSize, Resized(values, n)));
      if q == 0 { return false, c, capacity; }
      ScalarsMoved(f, c, q, f.dataSize, Resized(values, n), c.count, h);
      assert Resized(values, n)[..c.count] == values[..c.count];
      return true, Ptr(q, c.count), n;
    }
    return true, c, capacity;
  }

  lemma OneStored(f: Field, c: Cell, capacity: nat, h: Heap, v: Value)
    requires f.htype.Repeated? && f.sizeOffset != 0 && Packable(f.ltype) && f.atype.Pointer?
    requires FieldSep(f, c, h, true) && Array(f, c, capacity, h) && c.count < capacity
    ensures c.p in h && h[c.p].Data? && c.count < |h[c.p].values|
    ensures var c', g := Ptr(c.p, c.count + 1), h[c.p := Data(h[c.p].unit, h[c.p].values[c.count := v])];
            && FieldSep(f, c', g, true) && Array(f, c', capacity, g)
            && FieldOthers(f, c', g) == FieldOthers(f, c, h)
            && ViewField(f, c', g) == PutItem(f, ViewField(f, c, h), 0, v)
  {
    hide FieldSep, FieldReach, ViewField;
    ArrayView(f, c, h);
    var values := h[c.p].values[c.count := v];
    assert Moved(h, c.p, c.p, Data(f.dataSize, values)) == h[c.p := Data(f.dataSize, values)];
    ScalarsMoved(f, c, c.p, f.dataSize, values, c.count + 1, h);
    assert values[..c.count + 1] == h[c.p].values[..c.count] + [v];
  }

  lemma FullRun(f: Field, data: bytes, slot: Slot)
    requires data != [] && CountOf(f, slot, 0) >= Capacity(f)
    ensures DecPacked(f, data, slot, 0).None?
  {
  }

  lemma PackedRound(f: Field, data: bytes, slot: Slot)
    requires data != [] && CountOf(f, slot, 0) < Capacity(f) && f.sizeOffset != 0
    ensures var r := DecScalar(f, data);
            DecPacked(f, data, slot, 0) ==
            if r.Ok? then DecPacked(f, data[r.n..], PutItem(f, slot, 0, r.value), 0) else None
  {
    hide DecScalar, PutItem;
  }

  // A packed run appended to an allocated array, which grows ahead of the entries.
  method AppendPacked(s: IStream, mem: Memory, f: Field, c: Cell) returns (ok: bool, c': Cell)
    requires s.Valid() && HeapField(f) && f.atype.Pointer? && f.htype.Repeated? && Packable(f.ltype)
    requires FieldSep(f, c, mem.live, true)
    modifies s, mem
    ensures s.Valid() && s.End() <= old(s.End())
    ensures var block := DecBlock(old(s.Rest()));
            var r := if block.Ok? then DecPacked(f, block.value, ViewField(f, c, old(mem.live)), 0) else None;
            && (ok ==> block.Ok? && r == Some((ViewField(f, c', mem.live), 0)) && s.Consumed(block.n))
            && (ok || mem.denied || r.None?)
    ensures FieldSep(f, c', mem.live, true) && FieldOthers(f, c', mem.live) == FieldOthers(f, c, old(mem.live))
  {
    hide FieldReach, DecBlock, DecScalar, DecPacked, ViewField, HeapFields;
    assert f.dataSize <= PB_SIZE_MAX && Array(f, c, c.count, mem.live) && c.count <= PB_SIZE_MAX;
    ghost var slot := ViewField(f, c, mem.live);
    c' := c;
    var got, sub := s.MakeSubstream();
    if !got { return false, c; }
    ghost var data := sub.Rest();
    var capacity := c.count;
    var status := true;
    while sub.left > 0 && status
      invariant s.Valid() && sub.Valid() && fresh(sub) && sub.buf == s.buf
      invariant sub.End() + s.left <= old(s.End()) && s.left == old(s.left) - DecBlock(old(s.Rest())).n
      invariant c'.Ptr? && FieldSep(f, c', mem.live, true) && Array(f, c', capacity, mem.live)
      invariant FieldOthers(f, c', mem.live) == FieldOthers(f, c, old(mem.live))
      invariant status ==> sub.End() + s.left == old(s.End())
      invariant status ==> DecPacked(f, data, slot, 0) == DecPacked(f, sub.Rest(), ViewField(f, c', mem.live), 0)
      invariant status || mem.denied || DecPacked(f, data, slot, 0).None?
      decreases status, sub.left
      modifies sub, mem
    {
      ghost var rest := sub.Rest();
      ArrayView(f, c', mem.live);
      status, c', capacity := Reserve(mem, f, c', capacity, sub.left);
      if !status {
        if c'.count == PB_SIZE_MAX { FullRun(f, rest, ViewField(f, c', mem.live)); }
        break;
      }
      ArrayView(f, c', mem.live);
      PackedRound(f, rest, ViewField(f, c', mem.live));
      var v;
      status, v := Decoder.DecodeScalar(sub, f);
      if status {
        // the entry written is inside the array
        OneStored(f, c', capacity, mem.live, v);
        mem.WriteValue(c'.p, c'.count, v);
        c' := Ptr(c'.p, c'.count + 1);
      }
    }
    var closed := s.CloseSubstream(sub);
    ok := status;
    if ok { NothingPacked(f, ViewField(f, c', mem.live)); }
  }

  lemma NothingPacked(f: Field, slot: Slot)
    ensures DecPacked(f, [], slot, 0) == Some((slot, 0))
  {
  }

  // decode_pointer_field of a field that is not repeated. A submessage that is already
  // there is released first; anything else is reallocated.
  method DecodeSingle(s: IStream, mem: Memory, f: Field, c: Cell) returns (ok: bool, c': Cell)
    requires s.Valid() && HeapField(f) && f.atype.Pointer? && !f.htype.Repeated? && FieldSep(f, c, mem.live, true)
    modifies s, mem
    ensures s.Valid() && s.End() <= old(s.End())
    ensures var slot := ViewField(f, c, old(mem.live));
            var r := DecValue(f, old(s.Rest()), slot);
            && (ok ==> r.Ok? && s.Consumed(r.n) && ViewField(f, c', mem.live) == StoreValue(f, slot, 0, r.value))
            && (ok || mem.denied || r.Fail?)
    ensures FieldSep(f, c', mem.live, ok) && FieldOthers(f, c', mem.live) == FieldOthers(f, c, old(mem.live))
    decreases s.left, 4
  {
    hide FieldSep, FieldReach, HeapFields, ViewField, DecValue, StoreValue, DecScalar;
    c' := c;
    ghost var h, slot := mem.live, ViewField(f, c, mem.live);
    SingleCases(f, c, h, s.Rest(), slot);
    if f.ltype.TSubmessage? {
      if c.p != 0 {
        Untidy(f, c, mem.live);
        c' := ReleaseField(mem, f, c);
      }
      NullPointer(f, c', mem.live);
      AnewEachTime(f, s.Rest(), slot, ViewField(f, c', mem.live));
      ok, c' := AppendSubmessage(s, mem, f, c');
    } else if Text(f.ltype) {
      var p;
      ok, p := DecodeText(s, mem, f, c.p);
      c' := Ptr(p, c.count);
      TextReplaced(f, c, p, h, mem.live);
      if !ok { Untidy(f, c', mem.live); }
    } else {
      ok, c' := ReplaceScalar(s, mem, f, c);
      if !ok { Untidy(f, c', mem.live); }
    }
  }

  lemma TextReplaced(f: Field, c: Cell, p: Addr, h: Heap, g: Heap)
    requires f.atype.Pointer? && !f.htype.Repeated? && Text(f.ltype) && !f.ltype.TSubmessage?
    requires FieldSep(f, c, h, true) && TextMoved(h, c.p, g, p)
    ensures FieldSep(f, Ptr(p, c.count), g, true) && FieldOthers(f, Ptr(p, c.count), g) == FieldOthers(f, c, h)
    ensures p != 0 ==> ViewField(f, Ptr(p, c.count), g) == Opt(true, TextAt(p, g))
  {
    hide FieldSep, FieldReach, ViewField, ItemsSep, ItemsReach;
    SingleCell(f, c, h);
    if p == c.p && g == h {
      if p != 0 { assert Moved(h, p, p, h[p]) == h; }
    }
    if p != 0 { ScalarsMoved(f, c, p, g[p].unit, g[p].values, c.count, h); }
  }

  // Any other scalar of a field that is not repeated.
  method ReplaceScalar(s: IStream, mem: Memory, f: Field, c: Cell) returns (ok: bool, c': Cell)
    requires s.Valid() && HeapField(f) && f.atype.Pointer? && !f.htype.Repeated? && !Text(f.ltype)
               && !f.ltype.TSubmessage?
    requires FieldSep(f, c, mem.live, true)
    modifies s, mem
    ensures s.Valid() && s.End() <= old(s.End())
    ensures var r := DecScalar(f, old(s.Rest()));
            && (ok ==> r.Ok? && s.Consumed(r.n) && ViewField(f, c', mem.live) == Opt(true, r.value))
            && (ok || mem.denied || r.Fail?)
    ensures FieldSep(f, c', mem.live, true) && FieldOthers(f, c', mem.live) == FieldOthers(f, c, old(mem.live))
  {
    hide FieldSep, FieldReach, HeapFields, ViewField, DecScalar;
    ghost var h := mem.live;
    SingleCell(f, c, h);
    var q := AllocateField(mem, c.p, f.dataSize, 1, Data(f.dataSize, [VRaw]));
    if q == 0 { return false, c; }
    ScalarsMoved(f, c, q, f.dataSize, [VRaw], c.count, h);
    c' := Ptr(q, c.count);
    var v;
    ok, v := Decoder.DecodeScalar(s, f);
    if ok {
      mem.WriteValue(q, 0, v);
      Rewritten(h, c.p, q, Data(f.dataSize, [VRaw]), mem.live[q]);
      assert [VRaw][0 := v] == [v];
      ScalarsMoved(f, c, q, f.dataSize, [v], c.count, h);
    }
  }

  lemma SingleCell(f: Field, c: Cell, h: Heap)
    requires f.atype.Pointer? && !f.htype.Repeated? && FieldSep(f, c, h, true)
    ensures c.Ptr? && c.count <= PB_SIZE_MAX && (c.p == 0 ==> c.count == 0)
    ensures c.p != 0 ==> c.p in h && (!f.ltype.TSubmessage? ==> TextBlock(h[c.p]))
  {
    hide ItemsSep, ItemsReach;
  }

  lemma NullPointer(f: Field, c: Cell, h: Heap)
    requires f.atype.Pointer?
    ensures c == Ptr(0, 0) ==> FieldSep(f, c, h, true)
  {
  }

  lemma SingleCases(f: Field, c: Cell, h: Heap, s: bytes, slot: Slot)
    requires HeapField(f) && f.atype.Pointer? && !f.htype.Repeated? && FieldSep(f, c, h, true)
    ensures c.Ptr? && c.count <= PB_SIZE_MAX && (c.p == 0 ==> c.count == 0)
    ensures c.p != 0 ==> c.p in h && (!f.ltype.TSubmessage? ==> TextBlock(h[c.p]))
    ensures !f.ltype.TSubmessage? ==> DecValue(f, s, slot) == DecScalar(f, s)
    ensures Text(f.ltype) ==> DecScalar(f, s) == DecData(f, s)
    ensures forall v :: StoreValue(f, slot, 0, v) == Opt(true, v)
  {
    hide DecMsg, DecBlock, DecData;
    SingleCell(f, c, h);
  }

  // Behind a single pointer, a submessage does not depend on the one before it.
  lemma AnewEachTime(f: Field, s: bytes, slot: Slot, slot': Slot)
    requires f.atype.Pointer? && f.ltype.TSubmessage? && !f.htype.Repeated? && !f.htype.Oneof?
    ensures DecValue(f, s, slot) == DecValue(f, s, slot')
    ensures forall v :: StoreValue(f, slot, 0, v) == StoreValue(f, slot', 0, v)
  {
    hide DecBlock, DecMsg;
  }

  // decode_field
  method DecodeField(s: IStream, mem: Memory, wireType: nat, f: Field, c: Cell) returns (ok: bool, c': Cell)
    requires s.Valid() && HeapField(f) && FieldSep(f, c, mem.live, true)
    modifies s, mem
    ensures s.Valid() && s.End() <= old(s.End())
    ensures var r := DecField(f, wireType, old(s.Rest()), ViewField(f, c, old(mem.live)), 0);
            && (ok ==> r.Ok? && s.Consumed(r.n) && r.value == (ViewField(f, c', mem.live), 0))
            && (ok || mem.denied || r.Fail?)
    ensures FieldSep(f, c', mem.live, ok) && FieldOthers(f, c', mem.live) == FieldOthers(f, c, old(mem.live))
    decreases s.left, 5
  {
    hide BlockSep, ItemsSep, FieldReach, HeapFields, ViewField, DecValue, DecPacked, DecBlock, DecField, DecScalar,
      StoreValue;
    ghost var slot := ViewField(f, c, mem.live);
    FieldCases(f, wireType, s.Rest(), slot);
    if f.atype.Static? && f.ltype.TSubmessage? {
      ok, c' := DecodeStaticSubmessage(s, mem, f, c);
    } else if f.atype.Static? {
      PlainView(f, c, mem.live);
      ok, c' := DecodeStaticScalar(s, wireType, f, c, mem.live);
      PlainView(f, c', mem.live);
    } else if !f.htype.Repeated? {
      ok, c' := DecodeSingle(s, mem, f, c);
    } else if wireType == WT_STRING && Packable(f.ltype) {
      ok, c' := AppendPacked(s, mem, f, c);
      if !ok { Untidy(f, c', mem.live); }
    } else {
      CountView(f, c, mem.live);
      if c.count == PB_SIZE_MAX {
        Untidy(f, c, mem.live);
        return false, c;
      } else if f.ltype.TSubmessage? {
        ok, c' := AppendSubmessage(s, mem, f, c);
      } else if Text(f.ltype) {
        ok, c' := AppendText(s, mem, f, c);
      } else {
        ok, c' := AppendScalar(s, mem, f, c);
      }
    }
  }

  lemma PlainView(f: Field, c: Cell, h: Heap)
    requires c.Plain?
    ensures ViewField(f, c, h) == c.slot
  {
  }

  lemma CountView(f: Field, c: Cell, h: Heap)
    requires f.atype.Pointer? && f.htype.Repeated? && FieldSep(f, c, h, true)
    ensures |ItemsOf(ViewField(f, c, h))| == c.count
  {
    hide ItemsSep, ItemsReach;
  }

  lemma FieldCases(f: Field, wireType: nat, s: bytes, slot: Slot)
    requires f.htype.Repeated? ==> f.sizeOffset != 0
    ensures var block := DecBlock(s);
            var v := DecValue(f, s, slot);
            DecField(f, wireType, s, slot, 0) ==
              if f.htype.Repeated? && wireType == WT_STRING && Packable(f.ltype) then
                if block.Ok? && DecPacked(f, block.value, slot, 0).Some?
                then Ok(DecPacked(f, block.value, slot, 0).value, block.n) else Fail
              else if f.htype.Repeated? && |ItemsOf(slot)| >= Capacity(f) then Fail
              else if v.Ok? then Ok((StoreValue(f, slot, 0, v.value), 0), v.n) else Fail
    ensures !f.ltype.TSubmessage? ==> DecValue(f, s, slot) == DecScalar(f, s)
  {
    hide DecBlock, DecPacked, StoreValue, DecScalar;
  }

  // ---------- the loop over all fields ----------

  lemma HeapTags(fields: seq<Field>)
    requires HeapFields(fields)
    ensures DistinctTags(fields)
  {
    assert forall i :: 0 <= i < |fields| ==> HeapField(fields[i]);
  }

  lemma TagsKnown(fields: seq<Field>)
    requires DistinctTags(fields)
    ensures forall i :: 0 <= i < |fields| ==> fields[i].tag != 0
  {
  }

  // The entry that the iterator found. In an empty descriptor tag zero matches the
  // terminator, whose value is read into the dummy member.
  method DecodeFound(s: IStream, mem: Memory, wireType: nat, iter: FieldIter, m: Struct, ghost seen: set<nat>)
    returns (ok: bool, m': Struct)
    requires s.Valid() && iter.Valid() && HeapFields(iter.start) && Sep(iter.start, m, mem.live, true)
    modifies s, mem
    ensures s.Valid() && s.End() <= old(s.End())
    ensures var st := State(ViewMsg(iter.start, m, old(mem.live)), seen, None, 0);
            var r := DecKnown(iter.start, iter.pos, wireType, old(s.Rest()), st);
            && (ok ==> r.Next? && s.Consumed(r.n))
            && (ok ==> r.st == State(ViewMsg(iter.start, m', mem.live), MarkSeen(iter.start, iter.pos, seen), None, 0))
            && (ok || mem.denied || r.Error?)
    ensures Sep(iter.start, m', mem.live, ok)
    ensures Others(iter.start, m', mem.live) == Others(iter.start, m, old(mem.live))
    decreases s.left, 6
  {
    hide Sep, Reach, FieldSep, FieldReach, FieldIter.Valid, HeapField, Offset, SizeAddress, RequiredBefore, DecField,
      DecKnown, ViewMsg, ViewField, Same, MarkSeen, LayoutOk;
    ghost var fields, h := iter.start, mem.live;
    m' := m;
    assert |fields| <= |m| && forall k :: 0 <= k < |fields| ==> FieldSep(fields[k], m[k], h, true) by {
      SepFields(fields, m, h, true);
    }
    PosInside(iter);
    ghost var st := State(ViewMsg(fields, m, h), seen, None, 0);
    assert !FixedCount(FieldAt(fields, iter.pos)) by { NotFixed(fields, iter.pos); }
    KnownCase(fields, iter.pos, wireType, s.Rest(), st);
    if iter.pos == |iter.start| {
      DummyCase(wireType, s.Rest(), m, h);
      var v;
      ok, v := Decoder.DecodeScalar(s, LAST_FIELD);
      if !ok {
        UntidyStruct(fields, m, h, true);
      } else {
        m' := [Plain(One(v))];
        DummyStored(m, m', h);
      }
      return;
    }
    var c;
    ok, c := DecodeField(s, mem, wireType, iter.start[iter.pos], m[iter.pos]);
    SetField(fields, m, iter.pos, c, h, mem.live, true, ok);
    SetView(fields, m, iter.pos, c, h, mem.live, true);
    m' := m[iter.pos := c];
  }

  lemma NotFixed(fields: seq<Field>, i: nat)
    requires HeapFields(fields) && i <= |fields|
    ensures !FixedCount(FieldAt(fields, i))
  {
    hide LayoutOk;
    if i < |fields| { assert HeapField(fields[i]); }
  }

  lemma KnownCase(fields: seq<Field>, i: nat, wireType: nat, s: bytes, st: State)
    requires i <= |fields| && !FixedCount(FieldAt(fields, i)) && st.fixedField.None? && st.fixedCount == 0
    ensures var offset := Offset(fields, i);
            var r := DecField(FieldAt(fields, i), wireType, s, Get(st.msg, offset), 0);
            DecKnown(fields, i, wireType, s, st) ==
              if r.Ok?
              then Next(State(st.msg[offset := r.value.0], MarkSeen(fields, i, st.seen), None, r.value.1), r.n)
              else Error
  {
    hide DecField, Offset;
  }

  // The record that the terminator of an empty descriptor matches.
  lemma DummyCase(wireType: nat, s: bytes, m: Struct, h: Heap)
    requires Sep([], m, h, true)
    ensures var msg := ViewMsg([], m, h);
            var r := DecField(LAST_FIELD, wireType, s, Get(msg, Offset([], 0)), 0);
            var v := DecScalar(LAST_FIELD, s);
            && (r.Ok? <==> v.Ok?)
            && (r.Ok? ==> r.n == v.n && r.value == (One(v.value), 0))
            && (r.Ok? ==> msg[Offset([], 0) := r.value.0] == map[0 := One(v.value)])
  {
    hide DecScalar;
  }

  lemma DummyStored(m: Struct, m': Struct, h: Heap)
    requires Sep([], m, h, true) && |m'| == 1 && m'[0].Plain?
    ensures Sep([], m', h, true) && Others([], m', h) == Others([], m, h) && ViewMsg([], m', h) == map[0 := m'[0].slot]
  {
    assert Reach([], m', h) == Reach([], m, h) == {};
  }

  // A record after its tag: skipped when no field has the tag.
  method DecodeTagged(s: IStream, mem: Memory, tag: nat, wireType: nat, iter: FieldIter, words: array<nat>, m: Struct,
      ghost seen: set<nat>)
    returns (ok: bool, m': Struct, ghost seen': set<nat>)
    requires s.Valid() && iter.Valid() && HeapFields(iter.start) && Sep(iter.start, m, mem.live, true)
    requires words.Length == 2 && Decoder.SeenBits(words[..], seen)
    modifies s, mem, iter, words
    ensures s.Valid() && s.End() <= old(s.End()) && iter.Valid()
    ensures Decoder.SeenBits(words[..], seen')
    ensures Sep(iter.start, m', mem.live, ok)
    ensures Others(iter.start, m', mem.live) == Others(iter.start, m, old(mem.live))
    ensures var st := State(ViewMsg(iter.start, m, old(mem.live)), seen, None, 0);
            var r := Decoder.Tagged(iter.start, tag, wireType, old(s.Rest()), st);
            && (ok ==> r.Next? && s.Consumed(r.n) && r.st == State(ViewMsg(iter.start, m', mem.live), seen', None, 0))
            && (ok || mem.denied || r.Error?)
    decreases s.left, 7
  {
    hide Sep, Reach, FieldIter.Valid, Decoder.SeenBits, HeapFields, Wire.SkipField, MarkSeen, ViewMsg, Others, Lookup,
      DistinctTags, DecKnown;
    m', seen' := m, seen;
    HeapTags(iter.start);
    UntidyStruct(iter.start, m, mem.live, true);
    var found := iter.Find(tag);
    PosInside(iter);
    Decoder.FoundIsLookup(iter.start, tag, found, iter.pos);
    if !found {
      ok := s.SkipField(wireType);
      return;
    }
    Decoder.MarkField(iter, words, seen);
    seen' := MarkSeen(iter.start, iter.pos, seen);
    ok, m' := DecodeFound(s, mem, wireType, iter, m, seen);
  }

  // One round of the loop of pb_decode_noinit.
  method DecodeRecord(s: IStream, mem: Memory, iter: FieldIter, words: array<nat>, m: Struct, ghost seen: set<nat>)
    returns (status: Decoder.Status, m': Struct, ghost seen': set<nat>)
    requires s.Valid() && iter.Valid() && s.left > 0
    requires HeapFields(iter.start) && Sep(iter.start, m, mem.live, true)
    requires words.Length == 2 && Decoder.SeenBits(words[..], seen)
    modifies s, mem, iter, words
    ensures s.Valid() && s.End() <= old(s.End()) && iter.Valid()
    ensures var st := State(ViewMsg(iter.start, m, old(mem.live)), seen, None, 0);
            var r := Step(iter.start, old(s.Rest()), st);
            && (status.More? ==> r.Next? && s.Consumed(r.n))
            && (status.More? ==> r.st == State(ViewMsg(iter.start, m', mem.live), seen', None, 0))
            && (status.End? ==> r.Stop? && s.Consumed(r.n) && m' == m && seen' == seen && mem.live == old(mem.live))
            && (status.Bad? ==> mem.denied || r.Error?)
    ensures Decoder.SeenBits(words[..], seen')
    ensures Sep(iter.start, m', mem.live, !status.Bad?)
    ensures Others(iter.start, m', mem.live) == Others(iter.start, m, old(mem.live))
    decreases s.left, 8
  {
    hide Sep, Reach, FieldIter.Valid, Decoder.SeenBits, HeapFields, DecTag, Step, Decoder.Tagged, ViewMsg, Others;
    m', seen' := m, seen;
    UntidyStruct(iter.start, m, mem.live, true);
    ghost var fields, rest, st := iter.start, s.Rest(), State(ViewMsg(iter.start, m, mem.live), seen, None, 0);
    var got, wireType, tag, eof := s.DecodeTag();
    if !got {
      Decoder.StepEnds(fields, rest, st);
      status := if eof then Decoder.End else Decoder.Bad;
      return;
    }
    Decoder.StepTagged(fields, rest, st, tag, wireType, s.Rest());
    var ok;
    ok, m', seen' := DecodeTagged(s, mem, tag, wireType, iter, words, m, seen);
    status := if ok then Decoder.More else Decoder.Bad;
  }

  // pb_decode_noinit
  method DecodeNoinit(s: IStream, mem: Memory, fields: seq<Field>, m: Struct) returns (ok: bool, m': Struct)
    requires s.Valid() && HeapFields(fields) && Sep(fields, m, mem.live, true)
    modifies s, mem
    ensures s.Valid() && s.End() <= old(s.End())
    ensures var r := DecMsg(fields, old(s.Rest()), ViewMsg(fields, m, old(mem.live)));
            && (ok ==> r.Ok? && s.Consumed(r.n) && r.value == ViewMsg(fields, m', mem.live))
            && (ok || mem.denied || r.Fail?)
    ensures Sep(fields, m', mem.live, ok) && Others(fields, m', mem.live) == Others(fields, m, old(mem.live))
    decreases s.left, 9
  {
    hide Sep, Reach, FieldIter.Valid, Decoder.SeenBits, HeapFields, RequiredDone, Others, DistinctTags, ViewMsg,
      DecLoop, DecMsg, Step, Decoder.Running;
    HeapTags(fields);
    assert forall i :: 0 <= i < |fields| ==> fields[i].tag != 0 by { TagsKnown(fields); }
    var iter := new FieldIter(fields);
    var words := new nat[2](_ => 0);
    ghost var s0, into, seen: set<nat> := s.Rest(), ViewMsg(fields, m, mem.live), {};
    Decoder.NothingSeen(words[..]);
    Decoder.RunningStart(fields, s0, into);
    m' := m;
    var status := Decoder.More;
    while s.left > 0 && status.More?
      invariant s.Valid() && s.End() == old(s.End()) && s.left <= old(s.left)
      invariant iter.Valid() && iter.start == fields && fresh(iter) && fresh(words) && words.Length == 2
      invariant Decoder.SeenBits(words[..], seen) && !status.Bad?
      invariant Decoder.Running(fields, s0, into, s.Rest(), State(ViewMsg(fields, m', mem.live), seen, None, 0), status)
      invariant Sep(fields, m', mem.live, true) && Others(fields, m', mem.live) == Others(fields, m, old(mem.live))
      decreases status.More?, s.left
    {
      ghost var rest, st := s.Rest(), State(ViewMsg(fields, m', mem.live), seen, None, 0);
      Decoder.RunningStep(fields, s0, into, rest, st);
      status, m', seen := DecodeRecord(s, mem, iter, words, m', seen);
      if status.Bad? { return false, m'; }
    }
    Decoder.RunEnds(fields, s0, into, s.Rest(), State(ViewMsg(fields, m', mem.live), seen, None, 0), status);
    UntidyStruct(fields, m', mem.live, true);
    ok := Decoder.CheckRequired(iter, words, seen);
  }

  // pb_decode, into a structure that owns nothing. When it succeeds, exactly the
  // allocations of the structure are new, and it holds the message of Decoding; when it
  // fails, no allocation is new.
  method Decode(s: IStream, mem: Memory, fields: seq<Field>, m: Struct) returns (ok: bool, m': Struct)
    requires s.Valid() && HeapFields(fields)
    requires Sep(fields, m, mem.live, false) && Reach(fields, m, mem.live) == {}
    modifies s, mem
    ensures s.Valid() && s.End() <= old(s.End())
    ensures var r := Decoding.Decode(fields, old(s.Rest()), map[]);
            && (ok ==> r.Ok? && s.Consumed(r.n) && r.value == ViewMsg(fields, m', mem.live))
            && (ok || mem.denied || r.Fail?)
    ensures Sep(fields, m', mem.live, ok) && Others(fields, m', mem.live) == old(mem.live)
    ensures !ok ==> mem.live == old(mem.live) && Reach(fields, m', mem.live) == {}
    decreases s.left, 10
  {
    hide Sep, Reach, HeapFields, ViewMsg, DecMsg;
    m' := SetToDefaults(fields, m, mem.live);
    ok, m' := DecodeNoinit(s, mem, fields, m');
    if !ok { m' := Release.Release(mem, fields, m'); }
  }
}
