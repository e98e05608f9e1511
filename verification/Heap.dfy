// Heap ownership of structures with pointer fields: who owns which allocation, and what
// changes to one part of a structure do to the ownership of the whole.
module Heap {
  import opened Fields
  import opened Encoding
  import opened Decoding
  import opened Wire

  type Addr = nat   // 0 is the null pointer

  // The storage of a field in a structure. Static submessages hold the entries of their
  // array, used or spare, and its count or has-flag; allocations are referred to by
  // address.
  datatype Cell =
    | Plain(slot: Slot)
    | Inline(items: seq<Struct>, count: nat, has: bool)
    | Ptr(p: Addr, count: nat)

  type Struct = seq<Cell>

  // An allocation: scalars of `unit` bytes each, or one text; an array of structures; or
  // an array of pointers to text.
  datatype Block =
    | Data(unit: nat, values: seq<Value>)
    | Structs(items: seq<Struct>)
    | Pointers(ptrs: seq<Addr>)

  type Heap = map<Addr, Block>

  predicate Text(l: LType) { l.TString? || l.TBytes? }

  // No oneofs, extensions, callbacks or arrays with a fixed count; pb_size_t is no wider
  // than size_t.
  ghost predicate HeapField(f: Field)
    decreases f
  {
    && !f.atype.Callback? && !f.htype.Oneof? && !f.ltype.TExtension? && f.tag != 0
    && 1 <= f.dataSize <= PB_SIZE_MAX <= SIZE_MAX && f.arraySize < PB_SIZE_MAX
    && (f.htype.Repeated? ==> f.sizeOffset != 0)
    && (f.ltype.TSubmessage? ==> HeapFields(f.sub))
  }

  ghost predicate HeapFields(fields: seq<Field>)
    decreases fields
  {
    && LayoutOk(fields)
    && (forall i, j :: 0 <= i < j < |fields| ==> fields[i].tag != fields[j].tag)
    && (forall i :: 0 <= i < |fields| ==> HeapField(fields[i]))
  }

  // Entries of the storage of a static submessage, and how many of them are in use.
  function Entries(f: Field): nat {
    if f.htype.Repeated? then f.arraySize else 1
  }

  function Used(f: Field, count: nat): (n: nat)
    ensures n <= Entries(f)
  {
    if f.htype.Repeated? && count < f.arraySize then count else Entries(f)
  }

  // ---------- what a structure owns ----------

  ghost function Reach(fields: seq<Field>, m: Struct, h: Heap): set<Addr>
    decreases fields, 0
  {
    set k, a | 0 <= k < |fields| && k < |m| && a in FieldReach(fields[k], m[k], h) :: a
  }

  ghost function ItemsReach(fields: seq<Field>, items: seq<Struct>, h: Heap): set<Addr>
    decreases fields, 1
  {
    set k, a | 0 <= k < |items| && a in Reach(fields, items[k], h) :: a
  }

  ghost function FieldReach(f: Field, c: Cell, h: Heap): set<Addr>
    decreases f
  {
    match c
    case Plain(_) => {}
    case Inline(items, _, _) => ItemsReach(f.sub, items, h)
    case Ptr(p, _) => if p == 0 then {} else {p} + BlockReach(f, p, h)
  }

  ghost function BlockReach(f: Field, p: Addr, h: Heap): set<Addr>
    decreases f, 0
  {
    if p !in h then {}
    else
      match h[p]
      case Data(_, _) => {}
      case Structs(items) => ItemsReach(f.sub, items, h)
      case Pointers(ptrs) => TextReach(ptrs)
  }

  // A cell for every field. The structure of an empty message type is one dummy member,
  // which matters once a record with tag zero is received into it.
  predicate WholeStruct(fields: seq<Field>, m: Struct) {
    |m| == |fields| || (fields == [] && |m| == 1 && m[0].Plain?)
  }

  // Every pointer is null or leads to a live allocation of the right kind, no allocation
  // is reachable in two ways, and spare array entries own nothing. In a tidy structure
  // the counts of static arrays are within bounds, which a failed decode may break.
  ghost predicate Sep(fields: seq<Field>, m: Struct, h: Heap, tidy: bool)
    decreases fields, 0
  {
    && WholeStruct(fields, m)
    && (forall k :: 0 <= k < |fields| ==> FieldSep(fields[k], m[k], h, tidy))
    && (forall k, l :: 0 <= k < l < |fields| ==> FieldReach(fields[k], m[k], h) !! FieldReach(fields[l], m[l], h))
  }

  ghost predicate ItemsSep(fields: seq<Field>, items: seq<Struct>, used: nat, h: Heap, tidy: bool)
    decreases fields, 1
  {
    && used <= |items|
    && (forall k :: 0 <= k < |items| ==> Sep(fields, items[k], h, tidy && k < used))
    && (forall k :: used <= k < |items| ==> Reach(fields, items[k], h) == {})
    && (forall k, l :: 0 <= k < l < |items| ==> Reach(fields, items[k], h) !! Reach(fields, items[l], h))
  }

  ghost predicate FieldSep(f: Field, c: Cell, h: Heap, tidy: bool)
    decreases f, 1
  {
    if f.atype.Static? then
      if f.ltype.TSubmessage? then
        && c.Inline? && |c.items| == Entries(f)
        && ItemsSep(f.sub, c.items, Used(f, c.count), h, tidy)
        && (tidy && f.htype.Repeated? ==> c.count <= f.arraySize)
      else c.Plain?
    else
      && c.Ptr? && c.count <= PB_SIZE_MAX
      && (if c.p == 0 then c.count == 0 else c.p in h && BlockSep(f, c.p, c.count, h, tidy))
  }

  ghost predicate BlockSep(f: Field, p: Addr, count: nat, h: Heap, tidy: bool)
    requires p in h
    decreases f, 0
  {
    if f.ltype.TSubmessage? then
      && h[p].Structs? && ItemsSep(f.sub, h[p].items, |h[p].items|, h, tidy)
      && p !in ItemsReach(f.sub, h[p].items, h)
      && |h[p].items| == if f.htype.Repeated? then count else 1
    else if f.htype.Repeated? && Text(f.ltype) then
      h[p].Pointers? && |h[p].ptrs| == count && TextSep(p, h[p].ptrs, h)
    else
      h[p].Data? &&
      if f.htype.Repeated? then h[p].unit == f.dataSize && count <= |h[p].values| else |h[p].values| == 1
  }

  predicate TextBlock(b: Block) {
    b.Data? && |b.values| == 1
  }

  ghost predicate TextSep(p: Addr, ptrs: seq<Addr>, h: Heap) {
    && (forall k :: 0 <= k < |ptrs| && ptrs[k] != 0 ==> ptrs[k] in h && TextBlock(h[ptrs[k]]) && ptrs[k] != p)
    && (forall k, l :: 0 <= k < l < |ptrs| && ptrs[k] != 0 ==> ptrs[k] != ptrs[l])
  }

  // The part of the heap that a structure does not own.
  ghost function Others(fields: seq<Field>, m: Struct, h: Heap): Heap {
    h - Reach(fields, m, h)
  }

  ghost function ItemsOthers(fields: seq<Field>, items: seq<Struct>, h: Heap): Heap {
    h - ItemsReach(fields, items, h)
  }

  ghost function FieldOthers(f: Field, c: Cell, h: Heap): Heap {
    h - FieldReach(f, c, h)
  }

  // What a pointer owns, by the kind of its allocation.
  lemma Owned(f: Field, p: Addr, count: nat, h: Heap)
    requires p != 0 && p in h
    ensures h[p].Data? ==> FieldReach(f, Ptr(p, count), h) == {p}
    ensures h[p].Structs? ==> FieldReach(f, Ptr(p, count), h) == {p} + ItemsReach(f.sub, h[p].items, h)
    ensures h[p].Pointers? ==> FieldReach(f, Ptr(p, count), h) == {p} + TextReach(h[p].ptrs)
  {
    var b := BlockReach(f, p, h);
    hide ItemsReach;
  }

  ghost function TextReach(ptrs: seq<Addr>): set<Addr> {
    set a | a in ptrs && a != 0
  }

  // ---------- framing ----------

  ghost predicate Same(h: Heap, g: Heap, r: set<Addr>) {
    forall a :: a in r ==> a in h && a in g && h[a] == g[a]
  }

  lemma {:induction false} ReachLive(fields: seq<Field>, m: Struct, h: Heap, tidy: bool)
    requires Sep(fields, m, h, tidy)
    ensures Reach(fields, m, h) <= h.Keys
    decreases fields, 0
  {
    forall k | 0 <= k < |fields|
      ensures FieldReach(fields[k], m[k], h) <= h.Keys
    {
      FieldReachLive(fields[k], m[k], h, tidy);
    }
  }

  lemma {:induction false} ItemsReachLive(fields: seq<Field>, items: seq<Struct>, used: nat, h: Heap, tidy: bool)
    requires ItemsSep(fields, items, used, h, tidy)
    ensures ItemsReach(fields, items, h) <= h.Keys
    decreases fields, 1
  {
    forall k | 0 <= k < |items|
      ensures Reach(fields, items[k], h) <= h.Keys
    {
      ReachLive(fields, items[k], h, tidy && k < used);
    }
  }

  lemma {:induction false} FieldReachLive(f: Field, c: Cell, h: Heap, tidy: bool)
    requires FieldSep(f, c, h, tidy)
    ensures FieldReach(f, c, h) <= h.Keys
    decreases f
  {
    hide ItemsSep, ItemsReach, Used;
    match c
    case Plain(_) =>
    case Inline(items, count, _) => ItemsReachLive(f.sub, items, Used(f, count), h, tidy);
    case Ptr(p, _) =>
      if p != 0 && h[p].Structs? { ItemsReachLive(f.sub, h[p].items, |h[p].items|, h, tidy); }
  }

  // Ownership depends only on the owned allocations.
  lemma {:induction false} Frame(fields: seq<Field>, m: Struct, h: Heap, g: Heap, tidy: bool, tidy': bool)
    requires Sep(fields, m, h, tidy) && Same(h, g, Reach(fields, m, h)) && (tidy' ==> tidy)
    ensures Sep(fields, m, g, tidy') && Reach(fields, m, g) == Reach(fields, m, h)
    decreases fields, 0
  {
    forall k | 0 <= k < |fields|
      ensures FieldSep(fields[k], m[k], g, tidy') && FieldReach(fields[k], m[k], g) == FieldReach(fields[k], m[k], h)
    {
      FieldFrame(fields[k], m[k], h, g, tidy, tidy');
    }
  }

  lemma {:induction false} ItemsFrame(fields: seq<Field>, items: seq<Struct>, used: nat, h: Heap, g: Heap, tidy: bool,
        tidy': bool)
    requires ItemsSep(fields, items, used, h, tidy) && Same(h, g, ItemsReach(fields, items, h)) && (tidy' ==> tidy)
    ensures ItemsSep(fields, items, used, g, tidy') && ItemsReach(fields, items, g) == ItemsReach(fields, items, h)
    decreases fields, 1
  {
    forall k | 0 <= k < |items|
      ensures Sep(fields, items[k], g, tidy' && k < used) && Reach(fields, items[k], g) == Reach(fields, items[k], h)
    {
      Frame(fields, items[k], h, g, tidy && k < used, tidy' && k < used);
    }
  }

  lemma {:induction false} FieldFrame(f: Field, c: Cell, h: Heap, g: Heap, tidy: bool, tidy': bool)
    requires FieldSep(f, c, h, tidy) && Same(h, g, FieldReach(f, c, h)) && (tidy' ==> tidy)
    ensures FieldSep(f, c, g, tidy') && FieldReach(f, c, g) == FieldReach(f, c, h)
    decreases f
  {
    hide ItemsSep, ItemsReach, Used;
    match c
    case Plain(_) =>
    case Inline(items, count, _) => ItemsFrame(f.sub, items, Used(f, count), h, g, tidy, tidy');
    case Ptr(p, _) =>
      if p != 0 && h[p].Structs? { ItemsFrame(f.sub, h[p].items, |h[p].items|, h, g, tidy, tidy'); }
  }

  // ---------- changing one part ----------

  // One owner's allocations `a` became `a'` and nothing outside changed: any disjoint
  // set `b` of allocations is still there, unchanged and disjoint.
  lemma Replaced(h: Heap, g: Heap, a: set<Addr>, a': set<Addr>, b: set<Addr>)
    requires h - a == g - a' && a !! b && b <= h.Keys
    ensures a' !! b && Same(h, g, b) && g - (a' + b) == h - (a + b)
  {
    forall x | x in b
      ensures x !in a' && x in g && g[x] == h[x]
    {
      assert x in h - a;
      assert x in g - a';
    }
    assert g - (a' + b) == (g - a') - b;
    assert h - (a + b) == (h - a) - b;
  }

  // The union of the sets of a structure's other fields.
  ghost function Rest(fields: seq<Field>, m: Struct, i: nat, h: Heap): set<Addr> {
    set k, a | 0 <= k < |fields| && k < |m| && k != i && a in FieldReach(fields[k], m[k], h) :: a
  }

  lemma SetField(fields: seq<Field>, m: Struct, i: nat, c: Cell, h: Heap, g: Heap, tidy: bool, tidy': bool)
    requires i < |fields| && Sep(fields, m, h, tidy) && (tidy' ==> tidy)
    requires FieldSep(fields[i], c, g, tidy') && FieldOthers(fields[i], c, g) == FieldOthers(fields[i], m[i], h)
    ensures Sep(fields, m[i := c], g, tidy') && Others(fields, m[i := c], g) == Others(fields, m, h)
    ensures forall k :: 0 <= k < |fields| && k != i ==>
              && FieldReach(fields[k], m[k], g) == FieldReach(fields[k], m[k], h)
              && Same(h, g, FieldReach(fields[k], m[k], h))
  {
    hide FieldSep, FieldReach;
    var b := Rest(fields, m, i, h);
    var a, a' := FieldReach(fields[i], m[i], h), FieldReach(fields[i], c, g);
    assert Reach(fields, m, h) == a + b && a !! b && b <= h.Keys by { RestSplits(fields, m, i, h, tidy); }
    Replaced(h, g, a, a', b);
    forall k | 0 <= k < |fields| && k != i
      ensures FieldSep(fields[k], m[k], g, tidy')
      ensures FieldReach(fields[k], m[k], g) == FieldReach(fields[k], m[k], h) <= b
    {
      hide FieldSep, FieldReach;
      FieldFrame(fields[k], m[k], h, g, tidy, tidy');
    }
    var m' := m[i := c];
    assert Reach(fields, m', g) == a' + b by {
      forall x | x in b
        ensures x in Reach(fields, m', g)
      {
        var k :| 0 <= k < |fields| && k != i && x in FieldReach(fields[k], m[k], h);
        assert x in FieldReach(fields[k], m'[k], g);
      }
      forall x | x in a'
        ensures x in Reach(fields, m', g)
      {
        assert x in FieldReach(fields[i], m'[i], g);
      }
    }
  }

  lemma RestSplits(fields: seq<Field>, m: Struct, i: nat, h: Heap, tidy: bool)
    requires i < |fields| && Sep(fields, m, h, tidy)
    ensures Reach(fields, m, h) == FieldReach(fields[i], m[i], h) + Rest(fields, m, i, h)
    ensures FieldReach(fields[i], m[i], h) !! Rest(fields, m, i, h)
    ensures Rest(fields, m, i, h) <= h.Keys
  {
    ReachLive(fields, m, h, tidy);
  }

  ghost function RestItems(fields: seq<Field>, items: seq<Struct>, i: nat, h: Heap): set<Addr> {
    set k, a | 0 <= k < |items| && k != i && a in Reach(fields, items[k], h) :: a
  }

  lemma RestItemsSplit(fields: seq<Field>, items: seq<Struct>, i: nat, used: nat, h: Heap, tidy: bool)
    requires i < |items| && ItemsSep(fields, items, used, h, tidy)
    ensures ItemsReach(fields, items, h) == Reach(fields, items[i], h) + RestItems(fields, items, i, h)
    ensures Reach(fields, items[i], h) !! RestItems(fields, items, i, h)
    ensures RestItems(fields, items, i, h) <= h.Keys
  {
    ItemsReachLive(fields, items, used, h, tidy);
  }

  lemma SameWithin(h: Heap, g: Heap, b: set<Addr>, r: set<Addr>)
    requires Same(h, g, b) && r <= b
    ensures Same(h, g, r)
  {
  }

  // The same for one entry of an array, which may be the first spare one.
  lemma SetItem(fields: seq<Field>, items: seq<Struct>, i: nat, m: Struct, used: nat, used': nat, h: Heap, g: Heap,
        tidy: bool, tidy': bool)
    requires i < |items| && ItemsSep(fields, items, used, h, tidy) && (tidy' ==> tidy)
    requires i < used' && used <= used' <= |items| && (used == used' || (used' == used + 1 && i == used))
    requires Sep(fields, m, g, tidy') && Others(fields, m, g) == Others(fields, items[i], h)
    ensures ItemsSep(fields, items[i := m], used', g, tidy')
    ensures ItemsOthers(fields, items[i := m], g) == ItemsOthers(fields, items, h)
    ensures forall k :: 0 <= k < |items| && k != i ==>
              Reach(fields, items[k], g) == Reach(fields, items[k], h) && Same(h, g, Reach(fields, items[k], h))
  {
    hide Sep, Reach, Same;
    var b := RestItems(fields, items, i, h);
    var a, a' := Reach(fields, items[i], h), Reach(fields, m, g);
    assert ItemsReach(fields, items, h) == a + b && a !! b && b <= h.Keys by {
      RestItemsSplit(fields, items, i, used, h, tidy);
    }
    Replaced(h, g, a, a', b);
    forall k | 0 <= k < |items| && k != i
      ensures Sep(fields, items[k], g, tidy' && k < used')
      ensures Reach(fields, items[k], g) == Reach(fields, items[k], h) <= b
      ensures Same(h, g, Reach(fields, items[k], h))
    {
      hide Sep, Reach;
      SameWithin(h, g, b, Reach(fields, items[k], h));
      Frame(fields, items[k], h, g, tidy && k < used, tidy' && k < used');
    }
    var items' := items[i := m];
    assert ItemsReach(fields, items', g) == a' + b by {
      forall x | x in b
        ensures x in ItemsReach(fields, items', g)
      {
        var k :| 0 <= k < |items| && k != i && x in Reach(fields, items[k], h);
        assert x in Reach(fields, items'[k], g);
      }
      forall x | x in a'
        ensures x in ItemsReach(fields, items', g)
      {
        assert x in Reach(fields, items'[i], g);
      }
    }
  }

  // Writing to an allocation that a structure does not own.
  lemma WriteElsewhere(fields: seq<Field>, items: seq<Struct>, used: nat, h: Heap, p: Addr, b: Block, tidy: bool)
    requires ItemsSep(fields, items, used, h, tidy) && p !in ItemsReach(fields, items, h)
    ensures ItemsSep(fields, items, used, h[p := b], tidy)
    ensures ItemsReach(fields, items, h[p := b]) == ItemsReach(fields, items, h)
  {
    hide ItemsSep, ItemsReach;
    assert Same(h, h[p := b], ItemsReach(fields, items, h)) by { ItemsReachLive(fields, items, used, h, tidy); }
    ItemsFrame(fields, items, used, h, h[p := b], tidy, tidy);
  }
}
