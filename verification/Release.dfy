// The allocator, and pb_release: everything a structure owns is freed, each allocation
// once, and nothing else is touched.
module Release {
  import opened Fields
  import opened Heap

  // The heap behind pb_realloc and pb_free. Whether an allocation succeeds, and where it
  // is placed, is left open.
  class Memory {
    var live: Heap
    ghost var denied: bool   // an allocation failed

    // Freeing an address twice, or one that was never allocated, would break the
    // precondition.
    method Free(p: Addr)
      requires p == 0 || p in live
      modifies this`live
      ensures live == if p == 0 then old(live) else old(live) - {p}
    {
      if p != 0 { live := live - {p}; }
    }

    // The old contents are part of `block`, as realloc keeps them; 0 means failure, which
    // leaves the old allocation alone.
    method Realloc(p: Addr, block: Block) returns (q: Addr)
      requires p == 0 || (p in live && Kept(live[p], block))
      modifies this
      ensures q == 0 ==> live == old(live) && denied
      ensures q != 0 ==> (q == p || q !in old(live)) && live == Moved(old(live), p, q, block) && denied == old(denied)
    {
      q := *;
      if q == 0 || (q in live && q != p) {
        denied := true;
        return 0;
      }
      live := Moved(live, p, q, block);
    }

    method WriteEntry(p: Addr, k: nat, m: Struct)
      requires p in live && live[p].Structs? && k < |live[p].items|
      modifies this`live
      ensures live == old(live)[p := Structs(old(live)[p].items[k := m])]
    {
      live := live[p := Structs(live[p].items[k := m])];
    }

    method WritePointer(p: Addr, k: nat, q: Addr)
      requires p in live && live[p].Pointers? && k < |live[p].ptrs|
      modifies this`live
      ensures live == old(live)[p := Pointers(old(live)[p].ptrs[k := q])]
    {
      live := live[p := Pointers(live[p].ptrs[k := q])];
    }

    method WriteValue(p: Addr, k: nat, v: Value)
      requires p in live && live[p].Data? && k < |live[p].values|
      modifies this`live
      ensures live == old(live)[p := Data(old(live)[p].unit, old(live)[p].values[k := v])]
    {
      live := live[p := Data(live[p].unit, live[p].values[k := v])];
    }
  }

  // What a reallocation keeps: the entries that still fit, unless entries of another size
  // are put in their place. Entries that were never written may hold anything.
  ghost predicate Kept(b: Block, b': Block) {
    match b'
    case Data(unit, values) =>
      b.Data? && (b.unit == unit ==>
        forall k :: 0 <= k < |values| ==> values[k] == VRaw || (k < |b.values| && values[k] == b.values[k]))
    case Structs(items) => b.Structs? && forall k :: 0 <= k < |items| && k < |b.items| ==> items[k] == b.items[k]
    case Pointers(ptrs) => b.Pointers? && forall k :: 0 <= k < |ptrs| && k < |b.ptrs| ==> ptrs[k] == b.ptrs[k]
  }

  function Moved(h: Heap, p: Addr, q: Addr, block: Block): Heap {
    (if p == 0 then h else h - {p})[q := block]
  }

  // ---------- entries of an allocated array ----------

  // An entry of an array of structures in the heap changed from h to g, and is written
  // back.
  lemma SetEntry(f: Field, p: Addr, count: nat, k: nat, m: Struct, h: Heap, g: Heap, tidy: bool, tidy': bool)
    requires f.ltype.TSubmessage? && p != 0 && p in h && BlockSep(f, p, count, h, tidy) && (tidy' ==> tidy)
    requires k < |h[p].items|
    requires Sep(f.sub, m, g, tidy') && Others(f.sub, m, g) == Others(f.sub, h[p].items[k], h)
    ensures p in g && g[p] == h[p]
    ensures var g' := g[p := Structs(h[p].items[k := m])];
            && BlockSep(f, p, count, g', tidy')
            && FieldOthers(f, Ptr(p, count), g') == FieldOthers(f, Ptr(p, count), h)
            && Reach(f.sub, m, g') == Reach(f.sub, m, g) && Same(g, g', Reach(f.sub, m, g))
            && (forall l :: 0 <= l < |h[p].items| && l != k ==>
                  Reach(f.sub, h[p].items[l], g') == Reach(f.sub, h[p].items[l], h)
                  && Same(h, g', Reach(f.sub, h[p].items[l], h)))
  {
    var items := h[p].items;
    var items' := items[k := m];
    var g' := g[p := Structs(items')];
    var r, r' := ItemsReach(f.sub, items, h), ItemsReach(f.sub, items', g);
    SetItem(f.sub, items, k, m, |items|, |items|, h, g, tidy, tidy');
    assert h - r == g - r';
    assert p in h - r;
    assert p in g - r';
    WriteElsewhere(f.sub, items', |items|, g, p, Structs(items'), tidy');
    assert g' - ({p} + r') == h - ({p} + r) by {
      assert g' - ({p} + r') == (g - r') - {p};
      assert h - ({p} + r) == (h - r) - {p};
    }
    EntriesFrame(f.sub, items', |items|, g, p, Structs(items'), tidy');
    Owned(f, p, count, h);
    Owned(f, p, count, g');
    forall l | 0 <= l < |items|
      ensures Reach(f.sub, items'[l], g') == Reach(f.sub, items'[l], g)
    {
    }
    assert items'[k] == m;
    forall l | 0 <= l < |items| && l != k
      ensures Reach(f.sub, items[l], g') == Reach(f.sub, items[l], h)
    {
      assert items'[l] == items[l];
    }
  }

  // Each entry keeps what it owns when an allocation outside the array is written.
  lemma EntriesFrame(fields: seq<Field>, items: seq<Struct>, used: nat, h: Heap, p: Addr, b: Block, tidy: bool)
    requires ItemsSep(fields, items, used, h, tidy) && p !in ItemsReach(fields, items, h)
    ensures forall l :: 0 <= l < |items| ==>
              Reach(fields, items[l], h[p := b]) == Reach(fields, items[l], h)
              && Same(h, h[p := b], Reach(fields, items[l], h))
  {
    ItemsReachLive(fields, items, used, h, tidy);
    forall l | 0 <= l < |items|
      ensures Reach(fields, items[l], h[p := b]) == Reach(fields, items[l], h)
      ensures Same(h, h[p := b], Reach(fields, items[l], h))
    {
      hide Sep, Reach;
      assert Same(h, h[p := b], Reach(fields, items[l], h));
      Frame(fields, items[l], h, h[p := b], tidy && l < used, false);
    }
  }

  // ---------- pb_release ----------

  lemma NothingLeft(fields: seq<Field>, m: Struct, h: Heap)
    requires forall k :: 0 <= k < |fields| && k < |m| ==> FieldReach(fields[k], m[k], h) == {}
    ensures Reach(fields, m, h) == {}
  {
    hide FieldReach;
  }

  lemma NoItemsLeft(fields: seq<Field>, items: seq<Struct>, h: Heap)
    requires forall k :: 0 <= k < |items| ==> Reach(fields, items[k], h) == {}
    ensures ItemsReach(fields, items, h) == {}
  {
    hide Reach;
  }

  // pb_release. A second call finds nothing more to free.
  method Release(mem: Memory, fields: seq<Field>, m: Struct) returns (m': Struct)
    requires HeapFields(fields) && Sep(fields, m, mem.live, false)
    modifies mem`live
    ensures Sep(fields, m', mem.live, false) && Reach(fields, m', mem.live) == {}
    ensures mem.live == Others(fields, m, old(mem.live))
    ensures Reach(fields, m, old(mem.live)) == {} ==> mem.live == old(mem.live)
    decreases fields, 0
  {
    hide Sep, Reach, FieldSep, FieldReach, HeapField;
    m' := m;
    var i := 0;
    assert |fields| <= |m| by { SepFields(fields, m, mem.live, false); }
    while i < |fields|
      invariant 0 <= i <= |fields| <= |m'|
      invariant Sep(fields, m', mem.live, false)
      invariant Others(fields, m', mem.live) == Others(fields, m, old(mem.live))
      invariant forall k :: 0 <= k < i ==> FieldReach(fields[k], m'[k], mem.live) == {}
    {
      SepFields(fields, m', mem.live, false);
      ghost var h := mem.live;
      var c := ReleaseField(mem, fields[i], m'[i]);
      SetField(fields, m', i, c, h, mem.live, false, false);
      m' := m'[i := c];
      i := i + 1;
    }
    NothingLeft(fields, m', mem.live);
  }

  lemma SepFields(fields: seq<Field>, m: Struct, h: Heap, tidy: bool)
    requires Sep(fields, m, h, tidy)
    ensures |fields| <= |m|
    ensures forall k :: 0 <= k < |fields| ==> FieldSep(fields[k], m[k], h, tidy)
  {
    hide FieldSep, FieldReach;
  }

  // pb_release_single_field
  method ReleaseField(mem: Memory, f: Field, c: Cell) returns (c': Cell)
    requires HeapField(f) && FieldSep(f, c, mem.live, false)
    modifies mem`live
    ensures FieldSep(f, c', mem.live, false) && FieldReach(f, c', mem.live) == {}
    ensures mem.live == FieldOthers(f, c, old(mem.live))
    ensures c.Ptr? ==> c' == Ptr(0, 0)
    decreases f, 1
  {
    hide ItemsSep, ItemsReach, TextSep;
    c' := c;
    if c.Ptr? && c.p != 0 { Owned(f, c.p, c.count, mem.live); }
    if f.ltype.TSubmessage? {
      if f.atype.Static? {
        var items := ReleaseItems(mem, f, c.items, Used(f, c.count));
        c' := Inline(items, c.count, c.has);
        return;
      } else if c.p != 0 {
        ReleaseEntries(mem, f, c.p, if f.htype.Repeated? then c.count else 1, c.count);
      }
    }
    if f.atype.Pointer? {
      if f.htype.Repeated? && Text(f.ltype) && c.p != 0 {
        ReleaseTexts(mem, c.p, c.count);
      }
      mem.Free(c.p);
      c' := Ptr(0, 0);
    }
  }

  // The entries of a static submessage, or of an array of them, up to its count.
  method ReleaseItems(mem: Memory, f: Field, items: seq<Struct>, count: nat) returns (items': seq<Struct>)
    requires HeapFields(f.sub) && ItemsSep(f.sub, items, count, mem.live, false)
    modifies mem`live
    ensures ItemsSep(f.sub, items', count, mem.live, false) && |items'| == |items|
    ensures ItemsReach(f.sub, items', mem.live) == {}
    ensures mem.live == ItemsOthers(f.sub, items, old(mem.live))
    decreases f, 0
  {
    items' := items;
    var k := 0;
    while k < count
      invariant 0 <= k <= count && |items'| == |items|
      invariant ItemsSep(f.sub, items', count, mem.live, false)
      invariant ItemsOthers(f.sub, items', mem.live) == ItemsOthers(f.sub, items, old(mem.live))
      invariant forall l :: 0 <= l < k ==> Reach(f.sub, items'[l], mem.live) == {}
    {
      hide Sep, Reach, ItemsReach;
      ghost var h := mem.live;
      var m := Release(mem, f.sub, items'[k]);
      assert Others(f.sub, m, mem.live) == Others(f.sub, items'[k], h);
      SetItem(f.sub, items', k, m, count, count, h, mem.live, false, false);
      items' := items'[k := m];
      k := k + 1;
    }
    NoItemsLeft(f.sub, items', mem.live);
  }

  // The entries of an allocated submessage, or of an allocated array of them.
  method ReleaseEntries(mem: Memory, f: Field, p: Addr, entries: nat, ghost count: nat)
    requires HeapFields(f.sub) && f.ltype.TSubmessage? && p != 0 && p in mem.live
    requires BlockSep(f, p, count, mem.live, false) && entries == |mem.live[p].items|
    modifies mem`live
    ensures p in mem.live
    ensures mem.live - {p} == FieldOthers(f, Ptr(p, count), old(mem.live))
    decreases f, 0
  {
    ghost var c := Ptr(p, count);
    var k := 0;
    while k < entries
      invariant 0 <= k <= entries && p in mem.live && BlockSep(f, p, count, mem.live, false)
      invariant |mem.live[p].items| == entries
      invariant FieldOthers(f, c, mem.live) == FieldOthers(f, c, old(mem.live))
      invariant forall l :: 0 <= l < k ==> Reach(f.sub, mem.live[p].items[l], mem.live) == {}
    {
      hide Sep, Reach, ItemsReach, FieldReach;
      ghost var h := mem.live;
      var m := Release(mem, f.sub, mem.live[p].items[k]);
      assert Others(f.sub, m, mem.live) == Others(f.sub, h[p].items[k], h);
      SetEntry(f, p, count, k, m, h, mem.live, false, false);
      mem.WriteEntry(p, k, m);
      k := k + 1;
    }
    NoItemsLeft(f.sub, mem.live[p].items, mem.live);
    Owned(f, p, count, mem.live);
  }

  // The strings of an array of pointers.
  method ReleaseTexts(mem: Memory, p: Addr, count: nat)
    requires p in mem.live && mem.live[p].Pointers? && |mem.live[p].ptrs| == count
    requires TextSep(p, mem.live[p].ptrs, mem.live)
    modifies mem`live
    ensures p in mem.live
    ensures mem.live - {p} == old(mem.live) - ({p} + TextReach(old(mem.live[p].ptrs)))
  {
    ghost var h, ptrs := mem.live, mem.live[p].ptrs;
    var k := 0;
    while k < count
      invariant 0 <= k <= count
      invariant p in mem.live && mem.live[p].Pointers? && |mem.live[p].ptrs| == count
      invariant forall l :: k <= l < count ==> mem.live[p].ptrs[l] == ptrs[l]
      invariant forall l :: k <= l < count && ptrs[l] != 0 ==> ptrs[l] in mem.live
      invariant mem.live - {p} == h - ({p} + TextReach(ptrs[..k]))
    {
      TextsOneMore(ptrs, k);
      ghost var x, g := (if ptrs[k] == 0 then {} else {ptrs[k]}), mem.live;
      mem.Free(mem.live[p].ptrs[k]);
      mem.WritePointer(p, k, 0);
      assert mem.live - {p} == (g - {p}) - x;
      k := k + 1;
    }
    assert ptrs[..count] == ptrs;
  }

  lemma TextsOneMore(ptrs: seq<Addr>, k: nat)
    requires k < |ptrs|
    ensures TextReach(ptrs[..k + 1]) == TextReach(ptrs[..k]) + if ptrs[k] == 0 then {} else {ptrs[k]}
  {
    assert ptrs[..k + 1] == ptrs[..k] + [ptrs[k]];
  }
}
