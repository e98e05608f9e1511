// Message types that refer to each other, against descriptors that contain theirs. As far as
// nested calls reach, a type is its unfolding, and decoding by the table is decoding by the
// unfolded descriptor.
module Unfolding {
  import opened Wire
  import opened Fields
  import opened Encoding
  import opened Decoding
  import opened Schema
  import opened Cyclic
  import Order
  import RoundTrip

  // ---------- descriptors ----------

  // The descriptor of type t with `depth` levels; submessages below have no fields.
  function Unfold(table: seq<Type>, t: nat, depth: nat): seq<Field>
    decreases depth
  {
    if depth == 0 || t >= |table| then []
    else
      seq(|table[t].fields|, i requires 0 <= i < |table[t].fields| =>
        table[t].fields[i].(sub := if table[t].fields[i].ltype.TSubmessage? && i < |table[t].subs|
                                   then Unfold(table, table[t].subs[i], depth - 1) else []))
  }

  // The type of no submessage is deeper than that.
  ghost predicate Bounded(table: seq<Type>, t: nat, depth: nat)
    decreases depth
  {
    depth > 0 && t < |table| &&
    forall i :: 0 <= i < |table[t].fields| && table[t].fields[i].ltype.TSubmessage? && i < |table[t].subs| ==>
      Bounded(table, table[t].subs[i], depth - 1)
  }

  // A type that does not contain itself has one unfolding.
  lemma {:induction false} UnfoldWhole(table: seq<Type>, t: nat, depth: nat, more: nat)
    requires Bounded(table, t, depth) && depth <= more
    ensures Unfold(table, t, more) == Unfold(table, t, depth)
    decreases depth
  {
    forall i | 0 <= i < |table[t].fields| && table[t].fields[i].ltype.TSubmessage? && i < |table[t].subs|
      ensures Unfold(table, table[t].subs[i], more - 1) == Unfold(table, table[t].subs[i], depth - 1)
    {
      UnfoldWhole(table, table[t].subs[i], depth - 1, more - 1);
    }
    assert Unfold(table, t, more) == Unfold(table, t, depth);
  }

  // Two descriptors that differ in the fields of submessages only.
  ghost predicate Alike(fields: seq<Field>, whole: seq<Field>) {
    |whole| == |fields| && forall i :: 0 <= i < |fields| ==> whole[i] == fields[i].(sub := whole[i].sub)
  }

  lemma UnfoldAlike(table: seq<Type>, t: nat, depth: nat)
    requires Table(table) && t < |table| && depth > 0
    ensures Alike(table[t].fields, Unfold(table, t, depth))
    ensures forall i :: 0 <= i < |table[t].fields| ==>
              if table[t].fields[i].ltype.TSubmessage? then
                i < |table[t].subs| && Unfold(table, t, depth)[i].sub == Unfold(table, table[t].subs[i], depth - 1)
              else Unfold(table, t, depth)[i] == table[t].fields[i]
  {
    hide DistinctTags;
    assert Entry(table, table[t]);
  }

  lemma {:induction false} SameOffset(fields: seq<Field>, whole: seq<Field>, i: nat)
    requires Alike(fields, whole) && i <= |fields|
    ensures Offset(whole, i) == Offset(fields, i)
  {
    if 0 < i < |fields| { SameOffset(fields, whole, i - 1); }
  }

  lemma {:induction false} SameRequired(fields: seq<Field>, whole: seq<Field>, i: nat)
    requires Alike(fields, whole) && i <= |fields|
    ensures RequiredBefore(whole, i) == RequiredBefore(fields, i)
  {
    if i > 0 { SameRequired(fields, whole, i - 1); }
  }

  lemma {:induction false} SameLookup(fields: seq<Field>, whole: seq<Field>, tag: nat, i: nat)
    requires Alike(fields, whole) && i <= |fields|
    ensures LookupFrom(whole, tag, i) == LookupFrom(fields, tag, i)
    decreases |fields| - i
  {
    if i < |fields| { SameLookup(fields, whole, tag, i + 1); }
  }

  // The checks of the loop do not look at submessages.
  lemma SameChecks(fields: seq<Field>, whole: seq<Field>, st: State, st': State)
    requires Alike(fields, whole) && st'.fixedField == st.fixedField && st'.fixedCount == st.fixedCount
    requires st'.seen == st.seen
    ensures FixedDone(whole, st') <==> FixedDone(fields, st)
    ensures RequiredDone(whole, st'.seen) <==> RequiredDone(fields, st.seen)
  {
    hide RequiredBefore;
    SameRequired(fields, whole, |fields|);
  }

  lemma SameEntry(fields: seq<Field>, whole: seq<Field>, i: nat, st: State, st': State)
    requires Alike(fields, whole) && i <= |fields|
    requires st'.fixedField == st.fixedField && st'.fixedCount == st.fixedCount && st'.seen == st.seen
    ensures EnterFixed(whole, i, st').None? <==> EnterFixed(fields, i, st).None?
    ensures EnterFixed(fields, i, st).Some? ==>
              var e, e' := EnterFixed(fields, i, st).value, EnterFixed(whole, i, st').value;
              && e'.fixedField == e.fixedField && e'.fixedCount == e.fixedCount && e'.seen == st.seen == e.seen
              && e'.msg == st'.msg && e.msg == st.msg
              && MarkSeen(whole, i, e'.seen) == MarkSeen(fields, i, e.seen)
  {
    hide RequiredBefore;
    SameRequired(fields, whole, i);
    SameChecks(fields, whole, st, st');
  }

  // ---------- structures ----------

  // The message m is what the structure holds, down to `depth` levels. Nothing is said of
  // union members that are not in effect, of allocations that are not there, and of array
  // entries that were not written.
  ghost predicate Shown(table: seq<Type>, t: nat, node: Node, m: Message, depth: nat)
    decreases depth, 2
  {
    depth == 0 ||
    (t < |table| &&
     if table[t].fields == [] then m == node.slots
     else forall i :: 0 <= i < |table[t].fields| ==> ShownAt(table, t, i, node, m, depth))
  }

  ghost predicate ShownAt(table: seq<Type>, t: nat, i: nat, node: Node, m: Message, depth: nat)
    requires t < |table| && i < |table[t].fields| && depth > 0
    decreases depth, 1
  {
    var f, offset := table[t].fields[i], Offset(table[t].fields, i);
    var x, s := Get(node.slots, offset), Get(m, offset);
    if !f.ltype.TSubmessage? then ShownScalar(f, x, s)
    else i < |table[t].subs| && ShownSub(table, table[t].subs[i], f, x, Cyclic.Entries(node.subs, i), s, depth)
  }

  predicate ShownScalar(f: Field, x: Slot, s: Slot) {
    if f.htype.Oneof? then x.Union? && s.Union? && s.which == x.which && (s.which == f.tag ==> s.v == x.v)
    else s == x
  }

  // The slot s of a submessage field, of which x has the has-flag or which-tag.
  ghost predicate ShownSub(table: seq<Type>, u: nat, f: Field, x: Slot, entries: seq<Node>, s: Slot, depth: nat)
    requires depth > 0
    decreases depth, 0
  {
    match f.htype
    case Repeated =>
      if f.sizeOffset == 0 then
        s.Fixed? && |s.items| == f.arraySize &&
        forall k :: 0 <= k < |s.items| && k < |entries| ==> ShownValue(table, u, entries[k], s.items[k], depth)
      else
        s.Many? && |s.items| == |entries| &&
        forall k :: 0 <= k < |entries| ==> ShownValue(table, u, entries[k], s.items[k], depth)
    case Oneof =>
      && x.Union? && s.Union? && s.which == x.which
      && (s.which == f.tag ==> entries != [] && ShownValue(table, u, entries[0], s.v, depth))
    case _ =>
      if f.atype.Pointer? then
        x.Opt? && s.Opt? && s.has == x.has &&
        (s.has ==> entries != [] && ShownValue(table, u, entries[0], s.v, depth))
      else
        && entries != []
        && (if f.htype.Optional? && f.sizeOffset != 0 then x.Opt? && s.Opt? && s.has == x.has else s.One?)
        && ShownValue(table, u, entries[0], ValueOf(s), depth)
  }

  ghost predicate ShownValue(table: seq<Type>, u: nat, node: Node, v: Value, depth: nat)
    requires depth > 0
    decreases depth - 1, 3
  {
    v.VMsg? && Shown(table, u, node, v.m, depth - 1)
  }

  // Fewer levels are shown with more.
  lemma {:induction false} ShownLess(table: seq<Type>, t: nat, node: Node, m: Message, less: nat, depth: nat)
    requires less <= depth && Shown(table, t, node, m, depth)
    ensures Shown(table, t, node, m, less)
    decreases less, 1
  {
    hide Offset, ShownScalar;
    if less > 0 && table[t].fields != [] {
      forall i | 0 <= i < |table[t].fields|
        ensures ShownAt(table, t, i, node, m, less)
      {
        assert ShownAt(table, t, i, node, m, depth);
        var f, offset := table[t].fields[i], Offset(table[t].fields, i);
        if f.ltype.TSubmessage? {
          SubLess(table, table[t].subs[i], f, Get(node.slots, offset), Cyclic.Entries(node.subs, i), Get(m, offset),
                  less, depth);
        }
      }
    }
  }

  lemma {:induction false} SubLess(table: seq<Type>, u: nat, f: Field, x: Slot, entries: seq<Node>, s: Slot,
        less: nat, depth: nat)
    requires 0 < less <= depth && ShownSub(table, u, f, x, entries, s, depth)
    ensures ShownSub(table, u, f, x, entries, s, less)
    decreases less, 0
  {
    hide Shown;
    forall k, v | 0 <= k < |entries| && ShownValue(table, u, entries[k], v, depth)
      ensures ShownValue(table, u, entries[k], v, less)
    {
      ShownLess(table, u, entries[k], v.m, less - 1, depth - 1);
    }
  }

  // ---------- layout ----------

  // The fields of every type are laid out one behind the other.
  ghost predicate LaidOut(table: seq<Type>) {
    forall t :: 0 <= t < |table| ==> LayoutOk(table[t].fields)
  }

  lemma {:induction false} SameRunEnd(fields: seq<Field>, whole: seq<Field>, i: nat)
    requires Alike(fields, whole) && i < |fields|
    ensures RunEnd(whole, i) == RunEnd(fields, i)
  {
    hide Offset;
    SameOffset(fields, whole, i);
    if i > 0 { SameRunEnd(fields, whole, i - 1); }
  }

  lemma SameLayout(fields: seq<Field>, whole: seq<Field>)
    requires Alike(fields, whole) && LayoutOk(fields)
    ensures LayoutOk(whole)
  {
    hide Offset, RunEnd;
    forall i | 0 <= i < |fields|
      ensures RunEnd(whole, i) == RunEnd(fields, i) && Offset(whole, i) == Offset(fields, i)
    {
      SameRunEnd(fields, whole, i);
      SameOffset(fields, whole, i);
    }
  }

  // Another field has other storage, or is a member of the same union.
  lemma Elsewhere(fields: seq<Field>, i: nat, k: nat)
    requires LayoutOk(fields) && DistinctTags(fields) && i < |fields| && k < |fields| && i != k
    ensures fields[i].tag != fields[k].tag && fields[k].tag != 0
    ensures Offset(fields, k) == Offset(fields, i) ==> fields[i].htype.Oneof? && fields[k].htype.Oneof?
  {
    hide LayoutOk, Offset, Leader;
    StorageDisjoint(fields, i, k);
    if Offset(fields, k) == Offset(fields, i) {
      if i < k { RoundTrip.LeaderShared(fields, i, k); } else { RoundTrip.LeaderShared(fields, k, i); }
    }
  }

  // ---------- defaults ----------

  lemma {:induction false} NewHas(table: seq<Type>, u: nat, n: nat, limit: nat, i: nat)
    requires Table(table) && LaidOut(table) && u < |table| && i < n <= |table[u].fields| && limit > 0
    requires NewUpTo(table, u, n, limit).Some?
    ensures var f, node := table[u].fields[i], NewUpTo(table, u, n, limit).value;
            && Get(node.slots, Offset(table[u].fields, i)) == DefaultSlot(f, One(VRaw))
            && (if Inherits(f) && i < |table[u].subs| then
                  NewNode(table, table[u].subs[i], limit - 1).Some? &&
                  Cyclic.Entries(node.subs, i) == [NewNode(table, table[u].subs[i], limit - 1).value]
                else Cyclic.Entries(node.subs, i) == [])
    decreases n
  {
    hide Table, NewNode, Offset, LayoutOk, InitValue;
    if i < n - 1 {
      NewHas(table, u, n - 1, limit, i);
      TypeTags(table, u);
      Elsewhere(table[u].fields, i, n - 1);
    }
  }

  lemma TypeTags(table: seq<Type>, t: nat)
    requires Table(table) && t < |table|
    ensures DistinctTags(table[t].fields)
  {
    hide DistinctTags;
    assert Entry(table, table[t]);
  }

  // A structure that is set to defaults holds the default message.
  lemma {:induction false} NewShown(table: seq<Type>, u: nat, limit: nat, depth: nat)
    requires Table(table) && LaidOut(table) && u < |table| && NewNode(table, u, limit).Some?
    ensures Shown(table, u, NewNode(table, u, limit).value, DefaultMsg(Unfold(table, u, limit), map[]), depth)
    decreases limit
  {
    hide Table, Offset, LayoutOk, DefaultMsg, Unfold, ShownAt, NewUpTo;
    var fields, whole, node := table[u].fields, Unfold(table, u, limit), NewNode(table, u, limit).value;
    UnfoldAlike(table, u, limit);
    if depth > 0 {
      if fields == [] {
        NothingNew(table, u, whole, limit);
      } else {
        forall i | 0 <= i < |fields|
          ensures ShownAt(table, u, i, node, DefaultMsg(whole, map[]), depth)
        {
          NewHas(table, u, |fields|, limit, i);
          DefaultHas(fields, whole, i);
          Typed(table, u, i);
          if Inherits(fields[i]) { NewShown(table, table[u].subs[i], limit - 1, depth - 1); }
          NewAt(table, u, i, node, DefaultMsg(whole, map[]), whole[i], limit, depth);
        }
      }
    }
  }

  lemma NothingNew(table: seq<Type>, u: nat, whole: seq<Field>, limit: nat)
    requires u < |table| && table[u].fields == [] && Alike([], whole) && NewNode(table, u, limit).Some?
    ensures DefaultMsg(whole, map[]) == NewNode(table, u, limit).value.slots
  {
  }

  lemma DefaultHas(fields: seq<Field>, whole: seq<Field>, i: nat)
    requires Alike(fields, whole) && LayoutOk(fields) && i < |fields|
    ensures Get(DefaultMsg(whole, map[]), Offset(fields, i)) == DefaultSlot(whole[i], One(VInt(0)))
  {
    hide Offset, LayoutOk, DefaultSlot, DefaultUpTo;
    SameLayout(fields, whole);
    SameOffset(fields, whole, i);
    RoundTrip.DefaultAt(whole, |whole|, i, map[]);
  }

  lemma NewAt(table: seq<Type>, u: nat, i: nat, node: Node, m: Message, f': Field, limit: nat, depth: nat)
    requires u < |table| && i < |table[u].fields| && depth > 0 && limit > 0 && Plain(table[u].fields[i])
    requires f' == table[u].fields[i].(sub := f'.sub) && (f'.ltype.TSubmessage? ==> i < |table[u].subs|)
    requires if f'.ltype.TSubmessage? then f'.sub == Unfold(table, table[u].subs[i], limit - 1)
             else f' == table[u].fields[i]
    requires Get(node.slots, Offset(table[u].fields, i)) == DefaultSlot(table[u].fields[i], One(VRaw))
    requires Get(m, Offset(table[u].fields, i)) == DefaultSlot(f', One(VInt(0)))
    requires if Inherits(f') then
               && NewNode(table, table[u].subs[i], limit - 1).Some?
               && Cyclic.Entries(node.subs, i) == [NewNode(table, table[u].subs[i], limit - 1).value]
               && Shown(table, table[u].subs[i], NewNode(table, table[u].subs[i], limit - 1).value,
                        DefaultMsg(f'.sub, map[]), depth - 1)
             else Cyclic.Entries(node.subs, i) == []
    requires table[u].fields[i].tag != 0
    ensures ShownAt(table, u, i, node, m, depth)
  {
    hide NewNode, Offset, DefaultMsg, Unfold, DefaultSlot;
    if f'.ltype.TSubmessage? {
      SlotNew(table[u].fields[i]);
      SlotNew(f');
      var f, offset := table[u].fields[i], Offset(table[u].fields, i);
      SubNew(table, table[u].subs[i], f, Get(node.slots, offset), Cyclic.Entries(node.subs, i), Get(m, offset), depth);
    } else {
      ScalarNew(f');
    }
  }

  lemma SubNew(table: seq<Type>, u: nat, f: Field, x: Slot, entries: seq<Node>, s: Slot, depth: nat)
    requires f.ltype.TSubmessage? && Plain(f) && f.tag != 0 && depth > 0
    requires Inherits(f) ==> |entries| == 1 && ShownValue(table, u, entries[0], ValueOf(s), depth)
    requires !Inherits(f) ==> entries == []
    requires match f.htype
             case Repeated => if f.sizeOffset != 0 then s == Many([]) else s.Fixed? && |s.items| == f.arraySize
             case Oneof => x.Union? && x.which == 0 && s.Union? && s.which == 0
             case Required => if f.atype.Pointer? then x == s == Opt(false, VRaw) else s.One?
             case Optional =>
               if f.atype.Pointer? then x == s == Opt(false, VRaw)
               else if f.sizeOffset != 0 then x.Opt? && s.Opt? && !x.has && !s.has else s.One?
    ensures ShownSub(table, u, f, x, entries, s, depth)
  {
    hide ShownValue;
  }

  // The defaults where nothing is known of the memory.
  lemma SlotNew(f: Field)
    requires f.ltype.TSubmessage?
    ensures forall was :: was == One(VRaw) || was == One(VInt(0)) ==>
              var s := DefaultSlot(f, was);
              match f.htype
              case Repeated => if f.sizeOffset != 0 then s == Many([]) else s.Fixed? && |s.items| == f.arraySize
              case Oneof => s == Union(0, VRaw)
              case _ =>
                if f.atype.Pointer? then s == Opt(false, VRaw)
                else if f.htype.Optional? && f.sizeOffset != 0 then s == Opt(false, VMsg(DefaultMsg(f.sub, map[])))
                else s == One(VMsg(DefaultMsg(f.sub, map[])))
  {
    hide DefaultMsg;
  }

  lemma ScalarNew(f: Field)
    requires !f.ltype.TSubmessage?
    ensures DefaultSlot(f, One(VInt(0))) == DefaultSlot(f, One(VRaw))
    ensures f.htype.Oneof? ==> DefaultSlot(f, One(VRaw)) == Union(0, VRaw)
  {
    if f.htype.Repeated? && f.sizeOffset == 0 {
      assert Uninitialized(f, ItemsOf(One(VRaw))) == Uninitialized(f, ItemsOf(One(VInt(0))));
    }
  }

  // ---------- one record ----------

  // The next entry of an array with a fixed count is at most one behind those written.
  ghost predicate Paced(fields: seq<Field>, l: Loop) {
    l.st.fixedField.Some? ==>
      var i := l.st.fixedField.value;
      i < |fields| && FixedCount(fields[i])
          && (fields[i].ltype.TSubmessage? ==> l.st.fixedCount <= |Cyclic.Entries(l.subs, i)|)
  }

  // The same state of the loop, over the table and over the unfolded descriptor.
  ghost predicate Same(table: seq<Type>, t: nat, l: Loop, st: State, depth: nat) {
    && t < |table| && Shown(table, t, Node(l.st.msg, l.subs), st.msg, depth) && Paced(table[t].fields, l)
    && st.seen == l.st.seen && st.fixedField == l.st.fixedField && st.fixedCount == l.st.fixedCount
  }

  // What the slot of a submessage field says about decoding the next record.
  lemma SubBefore(table: seq<Type>, u: nat, f: Field, x: Slot, entries: seq<Node>, s: Slot, c: nat, depth: nat)
    requires f.ltype.TSubmessage? && Plain(f) && depth > 0 && ShownSub(table, u, f, x, entries, s, depth)
    ensures f.htype.Repeated? ==> CountOf(f, s, c) == Index(f, entries, c)
    ensures Inherits(f) ==> entries != [] && ShownValue(table, u, entries[0], ValueOf(s), depth)
  {
    hide ShownValue;
  }

  // The slot after a record, when the decoded structure holds the decoded message.
  lemma SubAfter(table: seq<Type>, u: nat, f: Field, x: Slot, entries: seq<Node>, s: Slot, c: nat, m: Node, v: Value,
        depth: nat)
    requires f.ltype.TSubmessage? && Plain(f) && depth > 0 && ShownSub(table, u, f, x, entries, s, depth)
    requires ShownValue(table, u, m, v, depth) && (f.htype.Repeated? ==> CountOf(f, s, c) < Capacity(f))
    requires FixedCount(f) ==> c <= |entries|
    ensures ShownSub(table, u, f, Shell(f, x), Put(f, entries, Index(f, entries, c), m), StoreValue(f, s, c, v), depth)
    ensures FixedCount(f) ==> c + 1 <= |Put(f, entries, Index(f, entries, c), m)|
  {
    hide ShownValue;
  }

  // The submessage of a record, over the table and by the descriptor.
  lemma FieldIs(f: Field, wireType: nat, s: bytes, slot: Slot, c: nat)
    requires f.ltype.TSubmessage?
    ensures var block := DecBlock(s);
            var r := if block.Ok? then DecMsg(f.sub, block.value, BaseMsg(f, slot)) else Fail;
            DecField(f, wireType, s, slot, c) ==
            if f.htype.Repeated? && CountOf(f, slot, c) >= Capacity(f) then Fail
            else if r.Ok? then Ok((StoreValue(f, slot, c, VMsg(r.value)), Bump(f, c)), block.n)
            else Fail
  {
    hide DecBlock, DecMsg, BaseMsg, StoreValue;
    var v := DecValue(f, s, slot);
  }

  lemma BaseIs(f: Field, slot: Slot)
    requires Plain(f.(sub := [])) && f.ltype.TSubmessage?
    ensures BaseMsg(f, slot) == if Inherits(f) then AsMsg(ValueOf(slot)) else DefaultMsg(f.sub, map[])
  {
    hide DefaultMsg;
  }

  // Values are stored in the same way whatever the submessage type.
  lemma StoresAlike(f: Field, f': Field, slot: Slot, c: nat, v: Value)
    requires f' == f.(sub := f'.sub)
    ensures StoreValue(f', slot, c, v) == StoreValue(f, slot, c, v) && CountOf(f', slot, c) == CountOf(f, slot, c)
    ensures Capacity(f') == Capacity(f) && Bump(f', c) == Bump(f, c)
  {
  }

  lemma {:induction false} SubSame(table: seq<Type>, t: nat, i: nat, wireType: nat, s: bytes, x: Slot,
        entries: seq<Node>, c: nat, limit: nat, f': Field, slot: Slot, depth: nat)
    requires Table(table) && LaidOut(table) && t < |table| && i < |table[t].fields| && i < |table[t].subs|
    requires table[t].fields[i].ltype.TSubmessage? && 0 < limit <= depth
    requires f' == table[t].fields[i].(sub := Unfold(table, table[t].subs[i], limit - 1))
    requires ShownSub(table, table[t].subs[i], table[t].fields[i], x, entries, slot, depth)
    requires FixedCount(f') ==> c <= |entries|
    requires !DecSub(table, t, i, s, entries, c, limit).Deep?
    ensures var r, q := DecSub(table, t, i, s, entries, c, limit), DecField(f', wireType, s, slot, c);
            && (r.Bad? <==> q.Fail?)
            && (r.Good? ==> r.n == q.n && r.value.1 == q.value.1)
            && (r.Good? ==> ShownSub(table, table[t].subs[i], table[t].fields[i], Shell(table[t].fields[i], x),
                                     r.value.0, q.value.0, depth))
            && (r.Good? && FixedCount(f') ==> r.value.1 <= |r.value.0|)
    decreases limit - 1, |s| + 1, 1
  {
    hide Table, LayoutOk, DecBlock, DecNode, DecMsg, NewNode, DecField, ShownSub, BaseMsg, StoreValue, Put, Shell,
      Shown, Unfold, Capacity;
    var f, u := table[t].fields[i], table[t].subs[i];
    Typed(table, t, i);
    FieldIs(f', wireType, s, slot, c);
    SubBefore(table, u, f, x, entries, slot, c, depth);
    BaseIs(f', slot);
    StoresAlike(f, f', slot, c, VRaw);
    var base, block := Base(table, t, i, entries, limit), DecBlock(s);
    if !(f.htype.Repeated? && Index(f, entries, c) >= Capacity(f)) && block.Ok? {
      BaseShown(table, t, i, entries, limit, slot, depth);
      NodeSame(table, u, block.value, base.value, BaseMsg(f', slot), limit - 1, depth - 1);
      var m, q := DecNode(table, u, block.value, base.value, limit - 1), DecMsg(f'.sub, block.value, BaseMsg(f', slot));
      if m.Good? {
        SubAfter(table, u, f, x, entries, slot, c, m.value, VMsg(q.value), depth);
        StoresAlike(f, f', slot, c, VMsg(q.value));
      }
    }
  }

  // The structure to decode into holds the message to decode into.
  lemma BaseShown(table: seq<Type>, t: nat, i: nat, entries: seq<Node>, limit: nat, slot: Slot, depth: nat)
    requires Table(table) && LaidOut(table) && t < |table| && i < |table[t].fields| && i < |table[t].subs|
    requires table[t].fields[i].ltype.TSubmessage? && 0 < limit <= depth
    requires var f := table[t].fields[i];
             Inherits(f) ==> entries != [] && ShownValue(table, table[t].subs[i], entries[0], ValueOf(slot), depth)
    requires Base(table, t, i, entries, limit).Some?
    ensures var f, u := table[t].fields[i], table[t].subs[i];
            var m := if Inherits(f) then AsMsg(ValueOf(slot)) else DefaultMsg(Unfold(table, u, limit - 1), map[]);
            Shown(table, u, Base(table, t, i, entries, limit).value, m, depth - 1)
    ensures table[t].subs[i] < |table|
  {
    hide Table, LayoutOk, NewNode, DefaultMsg, Unfold;
    Typed(table, t, i);
    if !Inherits(table[t].fields[i]) { NewShown(table, table[t].subs[i], limit - 1, depth - 1); }
  }

  lemma {:induction false} NodeSame(table: seq<Type>, t: nat, s: bytes, node: Node, m: Message, limit: nat, depth: nat)
    requires Table(table) && LaidOut(table) && t < |table| && limit <= depth && Shown(table, t, node, m, depth)
    requires !DecNode(table, t, s, node, limit).Deep?
    ensures var r, q := DecNode(table, t, s, node, limit), DecMsg(Unfold(table, t, limit), s, m);
            && (r.Bad? <==> q.Fail?)
            && (r.Good? ==> r.n == q.n && Shown(table, t, r.value, q.value, depth))
    decreases limit, 0
  {
    hide Table, LayoutOk, DecRecords, DecLoop, Unfold, Shown, FixedDone, RequiredDone, Alike;
    var whole := Unfold(table, t, limit);
    UnfoldAlike(table, t, limit);
    RecordsSame(table, t, s, Begin(node), Start(m), limit, depth);
    var r, q := DecRecords(table, t, s, Begin(node), limit), DecLoop(whole, s, Start(m));
    if r.Good? { SameChecks(table[t].fields, whole, r.value.st, q.st); }
  }

  lemma {:induction false} RecordsSame(table: seq<Type>, t: nat, s: bytes, l: Loop, st: State, limit: nat, depth: nat)
    requires Table(table) && LaidOut(table) && 0 < limit <= depth && Same(table, t, l, st, depth)
    requires !DecRecords(table, t, s, l, limit).Deep?
    ensures var r, q := DecRecords(table, t, s, l, limit), DecLoop(Unfold(table, t, limit), s, st);
            && (r.Bad? <==> q.Failed?)
            && (r.Good? ==> r.n == q.n && Same(table, t, r.value, q.st, depth))
    decreases limit - 1, |s| + 1, 4
  {
    hide Table, LayoutOk, DecTag, DecTagged, Unfold, Shown, Alike, Lookup, Wire.SkipField, DecKnown, Paced;
    if s != [] {
      var tag, whole := DecTag(s), Unfold(table, t, limit);
      if tag.Tag? {
        var body := s[tag.n..];
        TaggedSame(table, t, tag.tag, tag.wireType, body, l, st, limit, depth);
        var r := DecTagged(table, t, tag.tag, tag.wireType, body, l, limit);
        var q := Tagged(whole, tag.tag, tag.wireType, body, st);
        StepIs(whole, s, st);
        if r.Good? {
          assert s[tag.n + r.n..] == body[r.n..];
          RecordsSame(table, t, s[tag.n + r.n..], r.value, q.st, limit, depth);
        }
      }
    }
  }

  // The step of a record whose tag has been read.
  ghost function Tagged(fields: seq<Field>, tag: nat, wireType: nat, body: bytes, st: State): (r: StepResult)
    ensures !r.Stop? && (r.Next? ==> r.n <= |body|)
  {
    match Lookup(fields, tag)
    case Some(i) => DecKnown(fields, i, wireType, body, st)
    case None =>
      match Wire.SkipField(wireType, body)
      case Ok(_, n) => Next(st, n)
      case Fail => Error
  }

  lemma StepIs(fields: seq<Field>, s: bytes, st: State)
    requires DecTag(s).Tag?
    ensures var tag := DecTag(s);
            var q := Tagged(fields, tag.tag, tag.wireType, s[tag.n..], st);
            Step(fields, s, st) == if q.Next? then Next(q.st, tag.n + q.n) else Error
  {
    hide DecTag, Lookup, Wire.SkipField, DecKnown;
    var tag := DecTag(s);
    var i := Lookup(fields, tag.tag);
    if i.Some? { var r := DecKnown(fields, i.value, tag.wireType, s[tag.n..], st); }
  }

  lemma {:induction false} TaggedSame(table: seq<Type>, t: nat, tag: nat, wireType: nat, s: bytes, l: Loop, st: State,
        limit: nat, depth: nat)
    requires Table(table) && LaidOut(table) && 0 < limit <= depth && Same(table, t, l, st, depth)
    requires !DecTagged(table, t, tag, wireType, s, l, limit).Deep?
    ensures var r, q := DecTagged(table, t, tag, wireType, s, l, limit),
                        Tagged(Unfold(table, t, limit), tag, wireType, s, st);
            && (r.Bad? <==> q.Error?)
            && (r.Good? ==> q.Next? && r.n == q.n && Same(table, t, r.value, q.st, depth))
    decreases limit - 1, |s| + 1, 3
  {
    hide Table, LayoutOk, DecEntry, Unfold, Shown, Paced, Wire.SkipField, DecKnown, LookupFrom;
    var fields, whole := table[t].fields, Unfold(table, t, limit);
    UnfoldAlike(table, t, limit);
    SameLookup(fields, whole, tag, 0);
    if Lookup(fields, tag).Some? {
      EntrySame(table, t, Lookup(fields, tag).value, wireType, s, l, st, limit, depth);
    }
  }

  // The slot of field i was written, in both forms.
  lemma SlotShown(table: seq<Type>, t: nat, i: nat, node: Node, m: Message, x: Slot, subs: map<nat, seq<Node>>,
        s: Slot, depth: nat)
    requires t < |table| && i < |table[t].fields| && depth > 0 && Shown(table, t, node, m, depth)
    requires LayoutOk(table[t].fields) && DistinctTags(table[t].fields)
    requires forall k: nat :: k != i ==> Cyclic.Entries(subs, k) == Cyclic.Entries(node.subs, k)
    requires var f := table[t].fields[i];
             && (f.htype.Oneof? ==> x.Union? && s.Union? && x.which == f.tag && s.which == f.tag)
             && (if f.ltype.TSubmessage? then
                   i < |table[t].subs| &&
                   ShownSub(table, table[t].subs[i], f, x, Cyclic.Entries(subs, i), s, depth)
                 else ShownScalar(f, x, s))
    ensures var o := Offset(table[t].fields, i);
            Shown(table, t, Node(node.slots[o := x], subs), m[o := s], depth)
  {
    hide LayoutOk, DistinctTags, Offset;
    var o := Offset(table[t].fields, i);
    var node', m' := Node(node.slots[o := x], subs), m[o := s];
    forall k | 0 <= k < |table[t].fields|
      ensures ShownAt(table, t, k, node', m', depth)
    {
      assert ShownAt(table, t, k, node, m, depth);
      if k != i { Elsewhere(table[t].fields, i, k); }
    }
  }

  lemma Enters(fields: seq<Field>, i: nat, l: Loop)
    requires Paced(fields, l) && i < |fields| && EnterFixed(fields, i, l.st).Some?
    ensures var e := EnterFixed(fields, i, l.st).value;
            && (FixedCount(fields[i]) && fields[i].ltype.TSubmessage? ==>
                  e.fixedCount <= |Cyclic.Entries(l.subs, i)|)
            && (if FixedCount(fields[i]) then e.fixedField == Some(i)
                else e.fixedField == l.st.fixedField && e.fixedCount == l.st.fixedCount)
  {
    hide FixedDone;
  }

  lemma Keeps(fields: seq<Field>, i: nat, l: Loop, l': Loop)
    requires Paced(fields, l) && i < |fields|
    requires forall k: nat :: k != i ==> Cyclic.Entries(l'.subs, k) == Cyclic.Entries(l.subs, k)
    requires if FixedCount(fields[i]) then
               l'.st.fixedField == Some(i) &&
               (fields[i].ltype.TSubmessage? ==> l'.st.fixedCount <= |Cyclic.Entries(l'.subs, i)|)
             else l'.st.fixedField == l.st.fixedField && l'.st.fixedCount == l.st.fixedCount
    ensures Paced(fields, l')
  {
  }

  lemma HasShown(table: seq<Type>, t: nat, i: nat, node: Node, m: Message, depth: nat)
    requires Shown(table, t, node, m, depth) && depth > 0 && t < |table| && i < |table[t].fields|
    ensures ShownAt(table, t, i, node, m, depth)
  {
  }

  // A record of a submessage field.
  lemma {:induction false} EntrySub(table: seq<Type>, t: nat, i: nat, wireType: nat, s: bytes, l: Loop, st: State,
        limit: nat, depth: nat)
    requires Table(table) && LaidOut(table) && 0 < limit <= depth && Same(table, t, l, st, depth)
    requires i < |table[t].fields| && table[t].fields[i].ltype.TSubmessage?
    requires !DecEntry(table, t, i, wireType, s, l, limit).Deep?
    ensures var r, q := DecEntry(table, t, i, wireType, s, l, limit),
                        DecKnown(Unfold(table, t, limit), i, wireType, s, st);
            && (r.Bad? <==> q.Error?)
            && (r.Good? ==> q.Next? && r.n == q.n && Same(table, t, r.value, q.st, depth))
    decreases limit - 1, |s| + 1, 2, 0
  {
    hide Table, LayoutOk, DecSub, DecField, Unfold, Shown, Paced, EnterFixed, MarkSeen, Offset, ShownSub, Shell, Get;
    var fields, whole, node := table[t].fields, Unfold(table, t, limit), Node(l.st.msg, l.subs);
    UnfoldAlike(table, t, limit);
    Typed(table, t, i);
    var f, f', u, o := fields[i], whole[i], table[t].subs[i], Offset(fields, i);
    SameOffset(fields, whole, i);
    SameEntry(fields, whole, i, l.st, st);
    HasShown(table, t, i, node, st.msg, depth);
    if EnterFixed(fields, i, l.st).Some? {
      var e := EnterFixed(fields, i, l.st).value;
      var c, entries := e.fixedCount, Cyclic.Entries(l.subs, i);
      Enters(fields, i, l);
      SubSame(table, t, i, wireType, s, Get(l.st.msg, o), entries, c, limit, f', Get(st.msg, o), depth);
      var r := DecSub(table, t, i, s, entries, c, limit);
      if r.Good? {
        var q := DecField(f', wireType, s, Get(st.msg, o), c).value;
        ShellTag(table, u, f, Get(l.st.msg, o), r.value.0, q.0, depth);
        SlotShown(table, t, i, node, st.msg, Shell(f, Get(l.st.msg, o)), l.subs[i := r.value.0], q.0, depth);
        Counts(table, t, i, s, entries, c, limit);
        Keeps(fields, i, l, DecEntry(table, t, i, wireType, s, l, limit).value);
      }
    }
  }

  lemma ShellTag(table: seq<Type>, u: nat, f: Field, x: Slot, entries: seq<Node>, s: Slot, depth: nat)
    requires f.ltype.TSubmessage? && depth > 0 && ShownSub(table, u, f, Shell(f, x), entries, s, depth)
    ensures f.htype.Oneof? ==> Shell(f, x).Union? && s.Union? && Shell(f, x).which == f.tag && s.which == f.tag
  {
    hide ShownValue;
  }

  lemma Counts(table: seq<Type>, t: nat, i: nat, s: bytes, entries: seq<Node>, c: nat, limit: nat)
    requires t < |table| && i < |table[t].fields| && i < |table[t].subs| && limit > 0
    requires DecSub(table, t, i, s, entries, c, limit).Good?
    ensures !FixedCount(table[t].fields[i]) ==> DecSub(table, t, i, s, entries, c, limit).value.1 == c
  {
    hide DecBlock, DecNode, Base, Put;
  }

  // A record of another field: the table is not needed for it.
  lemma EntryScalar(table: seq<Type>, t: nat, i: nat, wireType: nat, s: bytes, l: Loop, st: State, limit: nat,
        depth: nat)
    requires Table(table) && LaidOut(table) && 0 < limit <= depth && Same(table, t, l, st, depth)
    requires i < |table[t].fields| && !table[t].fields[i].ltype.TSubmessage?
    ensures var r, q := DecKnown(table[t].fields, i, wireType, s, l.st),
                        DecKnown(Unfold(table, t, limit), i, wireType, s, st);
            && (r.Error? <==> q.Error?)
            && (r.Next? ==> q.Next? && r.n == q.n && Same(table, t, Loop(r.st, l.subs), q.st, depth))
  {
    hide Table, LayoutOk, DecField, Unfold, Shown, Paced, EnterFixed, MarkSeen, Offset, Get;
    var fields, whole, node := table[t].fields, Unfold(table, t, limit), Node(l.st.msg, l.subs);
    var f, o := fields[i], Offset(fields, i);
    UnfoldAlike(table, t, limit);
    Typed(table, t, i);
    SameOffset(fields, whole, i);
    SameEntry(fields, whole, i, l.st, st);
    HasShown(table, t, i, node, st.msg, depth);
    if EnterFixed(fields, i, l.st).Some? {
      var c := EnterFixed(fields, i, l.st).value.fixedCount;
      Enters(fields, i, l);
      ScalarSame(f, wireType, s, Get(l.st.msg, o), Get(st.msg, o), c);
      var r, q := DecField(f, wireType, s, Get(l.st.msg, o), c), DecField(f, wireType, s, Get(st.msg, o), c);
      if r.Ok? {
        SlotShown(table, t, i, node, st.msg, r.value.0, l.subs, q.value.0, depth);
        if !FixedCount(f) { Order.CounterKept(f, wireType, s, Get(l.st.msg, o), c); }
        Keeps(fields, i, l, Loop(DecKnown(fields, i, wireType, s, l.st).st, l.subs));
      }
    }
  }

  // A scalar does not look at the union it is stored in.
  lemma ScalarSame(f: Field, wireType: nat, s: bytes, x: Slot, y: Slot, c: nat)
    requires !f.ltype.TSubmessage? && ShownScalar(f, x, y) && f.atype.Static?
    ensures DecField(f, wireType, s, x, c) == DecField(f, wireType, s, y, c)
    ensures DecField(f, wireType, s, x, c).Ok? && f.htype.Oneof? ==>
              var slot := DecField(f, wireType, s, x, c).value.0; slot.Union? && slot.which == f.tag
    ensures DecField(f, wireType, s, x, c).Ok? ==>
              ShownScalar(f, DecField(f, wireType, s, x, c).value.0, DecField(f, wireType, s, y, c).value.0)
  {
    hide DecBlock, DecScalar, DecPacked;
    if f.htype.Oneof? { var v, w := DecValue(f, s, x), DecValue(f, s, y); }
  }

  lemma {:induction false} EntrySame(table: seq<Type>, t: nat, i: nat, wireType: nat, s: bytes, l: Loop, st: State,
        limit: nat, depth: nat)
    requires Table(table) && LaidOut(table) && 0 < limit <= depth && Same(table, t, l, st, depth)
    requires i <= |table[t].fields| && (table[t].fields != [] ==> i < |table[t].fields|)
    requires !DecEntry(table, t, i, wireType, s, l, limit).Deep?
    ensures var r, q := DecEntry(table, t, i, wireType, s, l, limit),
                        DecKnown(Unfold(table, t, limit), i, wireType, s, st);
            && (r.Bad? <==> q.Error?)
            && (r.Good? ==> q.Next? && r.n == q.n && Same(table, t, r.value, q.st, depth))
    decreases limit - 1, |s| + 1, 2, 1
  {
    hide Table, LayoutOk, DecSub, DecKnown, Unfold, Shown, Paced;
    if i == |table[t].fields| {
      NoEntry(table, t, wireType, s, l, st, limit, depth);
    } else {
      Typed(table, t, i);
      if table[t].fields[i].ltype.TSubmessage? {
        EntrySub(table, t, i, wireType, s, l, st, limit, depth);
      } else {
        EntryScalar(table, t, i, wireType, s, l, st, limit, depth);
      }
    }
  }

  // A record with tag zero for a type without fields.
  lemma NoEntry(table: seq<Type>, t: nat, wireType: nat, s: bytes, l: Loop, st: State, limit: nat, depth: nat)
    requires 0 < limit <= depth && Same(table, t, l, st, depth) && table[t].fields == []
    ensures var r, q := DecKnown(table[t].fields, 0, wireType, s, l.st),
                        DecKnown(Unfold(table, t, limit), 0, wireType, s, st);
            && (r.Error? <==> q.Error?)
            && (r.Next? ==> q.Next? && r.n == q.n && Same(table, t, Loop(r.st, l.subs), q.st, depth))
  {
    hide DecField;
    assert Unfold(table, t, limit) == [];
    assert st == l.st;
    LastCounter(wireType, s, Get(st.msg, 0), st.fixedCount);
  }

  lemma LastCounter(wireType: nat, s: bytes, slot: Slot, c: nat)
    ensures DecField(LAST_FIELD, wireType, s, slot, c).Ok? ==> DecField(LAST_FIELD, wireType, s, slot, c).value.1 == c
  {
    if DecField(LAST_FIELD, wireType, s, slot, c).Ok? { Order.CounterKept(LAST_FIELD, wireType, s, slot, c); }
  }

  // ---------- whole runs ----------

  // The message is what the structure holds, at every level.
  ghost predicate Holds(table: seq<Type>, t: nat, node: Node, m: Message) {
    forall depth: nat :: Shown(table, t, node, m, depth)
  }

  // When nested calls are not cut off, pb_decode_noinit over the table accepts what the
  // unfolded descriptor accepts, takes as many bytes, and leaves the structure that holds
  // the decoded message.
  lemma DecodedAlike(table: seq<Type>, t: nat, s: bytes, node: Node, m: Message, limit: nat)
    requires Table(table) && LaidOut(table) && t < |table| && Holds(table, t, node, m)
    requires !DecNode(table, t, s, node, limit).Deep?
    ensures var r, q := DecNode(table, t, s, node, limit), DecMsg(Unfold(table, t, limit), s, m);
            && (r.Bad? <==> q.Fail?)
            && (r.Good? ==> r.n == q.n && Holds(table, t, r.value, q.value))
  {
    hide Table, LaidOut, DecNode, DecMsg, Unfold, Shown;
    var r, q := DecNode(table, t, s, node, limit), DecMsg(Unfold(table, t, limit), s, m);
    assert Shown(table, t, node, m, limit);
    NodeSame(table, t, s, node, m, limit, limit);
    if r.Good? {
      forall depth: nat
        ensures Shown(table, t, r.value, q.value, depth)
      {
        assert Shown(table, t, node, m, depth + limit);
        NodeSame(table, t, s, node, m, limit, depth + limit);
        ShownLess(table, t, r.value, q.value, depth, depth + limit);
      }
    }
  }

  // The same of pb_decode.
  lemma DecodedAnew(table: seq<Type>, t: nat, s: bytes, limit: nat)
    requires Table(table) && LaidOut(table) && t < |table| && !DecNew(table, t, s, limit).Deep?
    ensures var r, q := DecNew(table, t, s, limit), Decode(Unfold(table, t, limit), s, map[]);
            && (r.Bad? <==> q.Fail?)
            && (r.Good? ==> r.n == q.n && Holds(table, t, r.value, q.value))
  {
    hide Table, LaidOut, DecNode, DecMsg, Unfold, Shown, NewNode, DefaultMsg;
    var node, m := NewNode(table, t, limit).value, DefaultMsg(Unfold(table, t, limit), map[]);
    forall depth: nat
      ensures Shown(table, t, node, m, depth)
    {
      NewShown(table, t, limit, depth);
    }
    DecodedAlike(table, t, s, node, m, limit);
  }
}
