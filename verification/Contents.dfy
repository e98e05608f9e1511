// What a structure in the heap holds: the message that its cells and the allocations it
// owns make up.
module Contents {
  import opened Fields
  import opened Encoding
  import opened Decoding
  import opened Schema
  import opened Heap

  ghost function ViewMsg(fields: seq<Field>, m: Struct, h: Heap): Message
    decreases fields, |fields| + 1
  {
    if fields == [] then
      if |m| == 1 && m[0].Plain? then map[0 := m[0].slot] else map[]
    else ViewUpTo(fields, |fields|, m, h)
  }

  ghost function ViewUpTo(fields: seq<Field>, i: nat, m: Struct, h: Heap): Message
    requires i <= |fields|
    decreases fields, i
  {
    if i == 0 then map[]
    else
      var before := ViewUpTo(fields, i - 1, m, h);
      if i - 1 < |m| then before[Offset(fields, i - 1) := ViewField(fields[i - 1], m[i - 1], h)] else before
  }

  // The first n entries of an array of structures.
  ghost function ViewItems(fields: seq<Field>, items: seq<Struct>, n: nat, h: Heap): (vs: seq<Value>)
    ensures |vs| == Least(n, |items|)
    decreases fields, |fields| + 2
  {
    seq(Least(n, |items|), k requires 0 <= k < Least(n, |items|) => VMsg(ViewMsg(fields, items[k], h)))
  }

  function Least(a: nat, b: nat): nat {
    if a < b then a else b
  }

  ghost function ViewField(f: Field, c: Cell, h: Heap): Slot
    decreases f, 1
  {
    match c
    case Plain(slot) => slot
    case Inline(items, count, has) =>
      var vs := ViewItems(f.sub, items, if f.htype.Repeated? then count else 1, h);
      if f.htype.Repeated? then Many(vs) else if vs == [] then One(VRaw) else StoredAs(f, has, vs[0])
    case Ptr(p, count) =>
      var vs := ViewBlock(f, p, if f.htype.Repeated? then count else 1, h);
      if f.htype.Repeated? then Many(vs) else if vs == [] then Opt(false, VRaw) else Opt(true, vs[0])
  }

  function StoredAs(f: Field, has: bool, v: Value): Slot {
    if f.htype.Optional? && f.sizeOffset != 0 then Opt(has, v) else One(v)
  }

  // The first n entries of the allocation at p; none when it is null.
  ghost function ViewBlock(f: Field, p: Addr, n: nat, h: Heap): seq<Value>
    decreases f, 0
  {
    if p == 0 || p !in h then []
    else
      match h[p]
      case Data(_, values) => values[..Least(n, |values|)]
      case Structs(items) => ViewItems(f.sub, items, n, h)
      case Pointers(ptrs) => ViewTexts(ptrs[..Least(n, |ptrs|)], h)
  }

  ghost function ViewTexts(ptrs: seq<Addr>, h: Heap): (vs: seq<Value>)
    ensures |vs| == |ptrs|
  {
    seq(|ptrs|, k requires 0 <= k < |ptrs| => TextAt(ptrs[k], h))
  }

  function TextAt(p: Addr, h: Heap): Value {
    if p != 0 && p in h && TextBlock(h[p]) then h[p].values[0] else VRaw
  }

  // ---------- framing ----------

  // The contents depend only on the owned allocations.
  lemma {:induction false} ViewFrame(fields: seq<Field>, m: Struct, h: Heap, g: Heap, tidy: bool)
    requires Sep(fields, m, h, tidy) && Same(h, g, Reach(fields, m, h))
    ensures ViewMsg(fields, m, g) == ViewMsg(fields, m, h)
    decreases fields, |fields| + 1
  {
    forall k | 0 <= k < |fields|
      ensures ViewField(fields[k], m[k], g) == ViewField(fields[k], m[k], h)
    {
      hide FieldSep, FieldReach, ViewUpTo;
      assert Same(h, g, FieldReach(fields[k], m[k], h)) by {
        assert forall a :: a in FieldReach(fields[k], m[k], h) ==> a in Reach(fields, m, h);
      }
      ViewFieldFrame(fields[k], m[k], h, g, tidy);
    }
    if fields != [] { SameFields(fields, |fields|, m, m, h, g); }
  }

  lemma {:induction false} SameFields(fields: seq<Field>, i: nat, m: Struct, m': Struct, h: Heap, g: Heap)
    requires i <= |fields| <= |m| && |m'| == |m|
    requires forall k :: 0 <= k < i ==> ViewField(fields[k], m'[k], g) == ViewField(fields[k], m[k], h)
    ensures ViewUpTo(fields, i, m', g) == ViewUpTo(fields, i, m, h)
  {
    hide ViewField;
    if i > 0 { SameFields(fields, i - 1, m, m', h, g); }
  }

  lemma {:induction false} ViewItemsFrame(fields: seq<Field>, items: seq<Struct>, n: nat, used: nat, h: Heap, g: Heap,
        tidy: bool)
    requires ItemsSep(fields, items, used, h, tidy) && Same(h, g, ItemsReach(fields, items, h))
    ensures ViewItems(fields, items, n, g) == ViewItems(fields, items, n, h)
    decreases fields, |fields| + 2
  {
    forall k | 0 <= k < |items|
      ensures ViewMsg(fields, items[k], g) == ViewMsg(fields, items[k], h)
    {
      hide Sep, Reach, ViewMsg;
      assert Same(h, g, Reach(fields, items[k], h)) by {
        assert forall a :: a in Reach(fields, items[k], h) ==> a in ItemsReach(fields, items, h);
      }
      ViewFrame(fields, items[k], h, g, tidy && k < used);
    }
  }

  lemma {:induction false} ViewFieldFrame(f: Field, c: Cell, h: Heap, g: Heap, tidy: bool)
    requires FieldSep(f, c, h, tidy) && Same(h, g, FieldReach(f, c, h))
    ensures ViewField(f, c, g) == ViewField(f, c, h)
    decreases f, 1
  {
    hide ItemsSep, ItemsReach, Used, ViewItems;
    match c
    case Plain(_) =>
    case Inline(items, count, _) =>
      ViewItemsFrame(f.sub, items, if f.htype.Repeated? then count else 1, Used(f, count), h, g, tidy);
    case Ptr(p, count) =>
      if p != 0 {
        assert p in FieldReach(f, c, h);
        var n := if f.htype.Repeated? then count else 1;
        assert ViewBlock(f, p, n, g) == ViewBlock(f, p, n, h) by {
          Owned(f, p, count, h);
          if h[p].Structs? {
            ViewItemsFrame(f.sub, h[p].items, n, |h[p].items|, h, g, tidy);
          } else if h[p].Pointers? {
            TextsFrame(h[p].ptrs, h, g);
          }
        }
      }
  }

  lemma TextsFrame(ptrs: seq<Addr>, h: Heap, g: Heap)
    requires Same(h, g, TextReach(ptrs))
    ensures forall n: nat :: n <= |ptrs| ==> ViewTexts(ptrs[..n], g) == ViewTexts(ptrs[..n], h)
  {
    forall k | 0 <= k < |ptrs|
      ensures TextAt(ptrs[k], g) == TextAt(ptrs[k], h)
    {
      if ptrs[k] != 0 { assert ptrs[k] in TextReach(ptrs); }
    }
  }

  // ---------- changing one part ----------

  lemma OffsetsDistinct(fields: seq<Field>, i: nat, j: nat)
    requires HeapFields(fields) && i < |fields| && j < |fields| && i != j
    ensures Offset(fields, i) != Offset(fields, j)
  {
    hide Offset, Extent, RunEnd;
    assert HeapField(fields[i]) && HeapField(fields[j]);
    StorageDisjoint(fields, i, j);
    assert Leader(fields, i) == i && Leader(fields, j) == j;
  }

  // The message has the slot of field i where the field is stored.
  lemma {:induction false} ViewAt(fields: seq<Field>, i: nat, k: nat, m: Struct, h: Heap)
    requires HeapFields(fields) && i < k <= |fields| <= |m|
    ensures Get(ViewUpTo(fields, k, m, h), Offset(fields, i)) == ViewField(fields[i], m[i], h)
    decreases k
  {
    hide HeapFields, Offset, ViewField;
    if i < k - 1 {
      OffsetsDistinct(fields, i, k - 1);
      ViewAt(fields, i, k - 1, m, h);
    }
  }

  lemma {:induction false} SetViewUpTo(fields: seq<Field>, i: nat, k: nat, m: Struct, c: Cell, h: Heap, g: Heap)
    requires HeapFields(fields) && i < k <= |fields| <= |m|
    requires forall l :: 0 <= l < |fields| && l != i ==> ViewField(fields[l], m[l], g) == ViewField(fields[l], m[l], h)
    ensures ViewUpTo(fields, k, m[i := c], g) ==
              ViewUpTo(fields, k, m, h)[Offset(fields, i) := ViewField(fields[i], c, g)]
    decreases k
  {
    hide HeapFields, Offset, ViewField;
    if i < k - 1 {
      OffsetsDistinct(fields, i, k - 1);
      SetViewUpTo(fields, i, k - 1, m, c, h, g);
    } else {
      SameFields(fields, i, m, m[i := c], h, g);
    }
  }

  // One field changed while the heap changed from h to g, as in Heap.SetField.
  lemma SetView(fields: seq<Field>, m: Struct, i: nat, c: Cell, h: Heap, g: Heap, tidy: bool)
    requires HeapFields(fields) && i < |fields| && Sep(fields, m, h, tidy)
    requires forall k :: 0 <= k < |fields| && k != i ==> Same(h, g, FieldReach(fields[k], m[k], h))
    ensures |fields| <= |m|
    ensures Get(ViewMsg(fields, m, h), Offset(fields, i)) == ViewField(fields[i], m[i], h)
    ensures ViewMsg(fields, m[i := c], g) == ViewMsg(fields, m, h)[Offset(fields, i) := ViewField(fields[i], c, g)]
  {
    hide HeapFields, Offset, ViewField, ViewUpTo, FieldSep, FieldReach, Same;
    forall k | 0 <= k < |fields| && k != i
      ensures ViewField(fields[k], m[k], g) == ViewField(fields[k], m[k], h)
    {
      ViewFieldFrame(fields[k], m[k], h, g, tidy);
    }
    ViewAt(fields, i, |fields|, m, h);
    SetViewUpTo(fields, i, |fields|, m, c, h, g);
  }

  // One entry of an array changed.
  lemma SetViewItem(fields: seq<Field>, items: seq<Struct>, i: nat, m: Struct, used: nat, h: Heap, g: Heap, tidy: bool)
    requires i < |items| && ItemsSep(fields, items, used, h, tidy)
    requires forall k :: 0 <= k < |items| && k != i ==> Same(h, g, Reach(fields, items[k], h))
    ensures forall k :: 0 <= k < |items| && k != i ==> ViewMsg(fields, items[k], g) == ViewMsg(fields, items[k], h)
    ensures ViewItems(fields, items[i := m], i + 1, g) == ViewItems(fields, items, i, h) + [VMsg(ViewMsg(fields, m, g))]
  {
    hide ViewMsg, Sep, Reach, Same;
    forall k | 0 <= k < |items| && k != i
      ensures ViewMsg(fields, items[k], g) == ViewMsg(fields, items[k], h)
    {
      ViewFrame(fields, items[k], h, g, tidy && k < used);
    }
  }
}
