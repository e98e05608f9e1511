// When decoding message types that contain themselves returns: on all inputs exactly when
// no type that is set to defaults reaches itself through static submessages.
module Termination {
  import opened Bits
  import opened Wire
  import opened Fields
  import opened Encoding
  import opened Decoding
  import opened Schema
  import opened Transfer
  import opened Graphs
  import opened Cyclic
  import Replacing

  // The types of static required and optional submessages.
  function InheritedTypes(table: seq<Type>, u: nat): set<nat> {
    if u >= |table| then {}
    else set i | 0 <= i < |table[u].fields| && i < |table[u].subs| && Inherits(table[u].fields[i]) :: table[u].subs[i]
  }

  function Inherited(table: seq<Type>): nat -> set<nat> {
    u => InheritedTypes(table, u)
  }

  // The types of all submessages.
  function SubTypes(table: seq<Type>, u: nat): set<nat> {
    if u >= |table| then {}
    else
      set i | 0 <= i < |table[u].fields| && i < |table[u].subs| && table[u].fields[i].ltype.TSubmessage?
        :: table[u].subs[i]
  }

  function Contained(table: seq<Type>): nat -> set<nat> {
    u => SubTypes(table, u)
  }

  // Setting a structure of type u to defaults comes to an end.
  ghost predicate DefaultsFinite(table: seq<Type>, u: nat) {
    Acyclic(Inherited(table), u)
  }

  // Every type whose structures can start anew while one of type t is decoded, at any
  // depth, has finite defaults.
  ghost predicate Safe(table: seq<Type>, t: nat) {
    forall p: seq<nat> :: Walk(Contained(table), p) && p[0] == t ==> StartsFinite(table, p[|p| - 1])
  }

  ghost predicate StartsFinite(table: seq<Type>, v: nat) {
    v < |table| ==>
      forall i :: 0 <= i < |table[v].fields| && i < |table[v].subs| && Restarts(table[v].fields[i]) ==>
        DefaultsFinite(table, table[v].subs[i])
  }

  // ---------- defaults ----------

  lemma InheritedIs(table: seq<Type>, u: nat, i: nat)
    requires u < |table| && i < |table[u].fields| && i < |table[u].subs| && Inherits(table[u].fields[i])
    ensures table[u].subs[i] in Inherited(table)(u)
  {
  }

  lemma ContainedIs(table: seq<Type>, u: nat, i: nat)
    requires u < |table| && i < |table[u].fields| && i < |table[u].subs| && table[u].fields[i].ltype.TSubmessage?
    ensures table[u].subs[i] in Contained(table)(u)
  {
  }

  // A walk longer than the limit exceeds it.
  lemma {:induction false} WalkExceeds(table: seq<Type>, p: seq<nat>, limit: nat)
    requires Walk(Inherited(table), p) && |p| > limit
    ensures NewNode(table, p[0], limit).None?
    decreases limit
  {
    if limit > 0 && p[0] < |table| {
      Tail(Inherited(table), p);
      var u := p[0];
      var i: nat :| i < |table[u].fields| && i < |table[u].subs| && Inherits(table[u].fields[i]) &&
                    table[u].subs[i] == p[1];
      WalkExceeds(table, p[1..], limit - 1);
      UpToExceeds(table, u, i, |table[u].fields|, limit);
    }
  }

  lemma {:induction false} UpToExceeds(table: seq<Type>, u: nat, i: nat, k: nat, limit: nat)
    requires u < |table| && i < k <= |table[u].fields| && i < |table[u].subs| && Inherits(table[u].fields[i])
               && limit > 0
    requires NewNode(table, table[u].subs[i], limit - 1).None?
    ensures NewUpTo(table, u, k, limit).None?
    decreases k
  {
    hide NewNode, DefaultSlot, Offset;
    if i < k - 1 { UpToExceeds(table, u, i, k - 1, limit); }
  }

  // Conversely, where the limit is exceeded there is a walk that does so.
  lemma {:induction false} ExceedsWalk(table: seq<Type>, u: nat, limit: nat) returns (p: seq<nat>)
    requires Table(table) && u < |table| && NewNode(table, u, limit).None?
    ensures Walk(Inherited(table), p) && p[0] == u && |p| == limit + 1
    ensures forall k :: 0 <= k < |p| ==> p[k] < |table|
    decreases limit
  {
    if limit == 0 {
      return [u];
    }
    var i := ExceedsField(table, u, |table[u].fields|, limit);
    Typed(table, u, i);
    var q := ExceedsWalk(table, table[u].subs[i], limit - 1);
    InheritedIs(table, u, i);
    Prepend(Inherited(table), u, q);
    p := [u] + q;
  }

  lemma {:induction false} ExceedsField(table: seq<Type>, u: nat, k: nat, limit: nat) returns (i: nat)
    requires u < |table| && k <= |table[u].fields| && limit > 0 && NewUpTo(table, u, k, limit).None?
    ensures i < k && i < |table[u].subs| && Inherits(table[u].fields[i])
    ensures NewNode(table, table[u].subs[i], limit - 1).None?
    decreases k
  {
    hide NewNode, DefaultSlot, Offset;
    if NewUpTo(table, u, k - 1, limit).None? {
      i := ExceedsField(table, u, k - 1, limit);
    } else {
      i := k - 1;
    }
  }

  // Setting to defaults returns exactly if it is finite, and then as many nested calls as
  // there are types are enough.
  lemma DefaultsReturn(table: seq<Type>, u: nat)
    requires Table(table) && u < |table|
    ensures DefaultsFinite(table, u) ==> forall limit: nat :: limit >= |table| ==> NewNode(table, u, limit).Some?
    ensures !DefaultsFinite(table, u) ==> forall limit: nat :: NewNode(table, u, limit).None?
  {
    hide NewNode, Table;
    if DefaultsFinite(table, u) {
      forall limit: nat | limit >= |table|
        ensures NewNode(table, u, limit).Some?
      {
        if NewNode(table, u, limit).None? {
          var p := ExceedsWalk(table, u, limit);
          Pigeonhole(p, |table|);
        }
      }
    } else {
      var p: seq<nat> :| Walk(Inherited(table), p) && p[0] == u && !Distinct(p);
      var j, k :| 0 <= j < k < |p| && p[j] == p[k];
      forall limit: nat
        ensures NewNode(table, u, limit).None?
      {
        var q, at := Pump(Inherited(table), p, j, k, limit + 1);
        WalkExceeds(table, q, limit);
      }
    }
  }

  // ---------- decoding with safe types ----------

  lemma SafeStart(table: seq<Type>, t: nat, i: nat)
    requires Safe(table, t) && t < |table| && i < |table[t].fields| && i < |table[t].subs|
               && Restarts(table[t].fields[i])
    ensures DefaultsFinite(table, table[t].subs[i])
  {
    hide DefaultsFinite;
    var p := [t];
    assert Walk(Contained(table), p) && p[|p| - 1] == t;
    assert StartsFinite(table, t);
  }

  lemma SafeBelow(table: seq<Type>, t: nat, i: nat)
    requires Safe(table, t) && t < |table| && i < |table[t].fields| && i < |table[t].subs|
    requires table[t].fields[i].ltype.TSubmessage?
    ensures Safe(table, table[t].subs[i])
  {
    hide StartsFinite;
    ContainedIs(table, t, i);
    forall p: seq<nat> | Walk(Contained(table), p) && p[0] == table[t].subs[i]
      ensures StartsFinite(table, p[|p| - 1])
    {
      Prepend(Contained(table), t, p);
      var q := [t] + p;
      assert q[|q| - 1] == p[|p| - 1] && Walk(Contained(table), q);
    }
  }

  // So many nested calls are enough for an input of n bytes.
  function Enough(table: seq<Type>, n: nat): nat {
    n / 2 + |table| + 1
  }

  lemma {:induction false} SubReturns(table: seq<Type>, t: nat, i: nat, s: bytes, entries: seq<Node>, c: nat,
        limit: nat)
    requires Table(table) && Safe(table, t) && t < |table| && i < |table[t].fields| && i < |table[t].subs|
    requires table[t].fields[i].ltype.TSubmessage? && limit >= Enough(table, |s| + 1)
    ensures !DecSub(table, t, i, s, entries, c, limit).Deep?
    decreases |s|, 0
  {
    hide Table, Safe, NewNode, DecNode, DecBlock, DefaultsFinite;
    Typed(table, t, i);
    var u, data := table[t].subs[i], DecBlock(s);
    if Restarts(table[t].fields[i]) {
      SafeStart(table, t, i);
      DefaultsReturn(table, u);
    }
    if data.Ok? {
      SafeBelow(table, t, i);
      var base := Base(table, t, i, entries, limit);
      assert base.Some?;
      NodeReturns(table, u, data.value, base.value, limit - 1);
    }
  }

  lemma {:induction false} RecordsReturn(table: seq<Type>, t: nat, s: bytes, l: Loop, limit: nat)
    requires Table(table) && Safe(table, t) && t < |table| && limit >= Enough(table, |s|)
    ensures !DecRecords(table, t, s, l, limit).Deep?
    decreases |s|, 1
  {
    hide Table, Safe, DecTag, DecSub, DecKnown, Lookup, Offset, RequiredBefore, Wire.SkipField;
    var tag := DecTag(s);
    if s != [] && tag.Tag? {
      var body := s[tag.n..];
      var known := Lookup(table[t].fields, tag.tag);
      if known.Some? && known.value < |table[t].fields| {
        var i := known.value;
        Typed(table, t, i);
        if table[t].fields[i].ltype.TSubmessage? && EnterFixed(table[t].fields, i, l.st).Some? {
          var count := EnterFixed(table[t].fields, i, l.st).value.fixedCount;
          SubReturns(table, t, i, body, Entries(l.subs, i), count, limit);
        }
      }
      if known.Some? {
        var e := DecEntry(table, t, known.value, tag.wireType, body, l, limit);
        assert !e.Deep?;
      }
      var r := DecTagged(table, t, tag.tag, tag.wireType, body, l, limit);
      if r.Good? { RecordsReturn(table, t, s[tag.n + r.n..], r.value, limit); }
    }
  }

  // pb_decode_noinit returns on every input and in every structure.
  lemma {:induction false} NodeReturns(table: seq<Type>, t: nat, s: bytes, node: Node, limit: nat)
    requires Table(table) && Safe(table, t) && t < |table| && limit >= Enough(table, |s|)
    ensures !DecNode(table, t, s, node, limit).Deep?
    decreases |s|, 2
  {
    hide Table, Safe, DecRecords;
    RecordsReturn(table, t, s, Begin(node), limit);
  }

  // ---------- decoding with other types ----------

  // A structure that nothing was received into.
  ghost predicate Fresh(table: seq<Type>, t: nat, node: Node) {
    node == EMPTY || exists limit: nat :: NewNode(table, t, limit) == Some(node)
  }

  lemma {:induction false} FreshUpTo(table: seq<Type>, t: nat, k: nat, i: nat, limit: nat)
    requires t < |table| && i < k <= |table[t].fields| && limit > 0 && NewUpTo(table, t, k, limit).Some?
    requires |table[t].subs| == |table[t].fields|
    ensures var entries := Entries(NewUpTo(table, t, k, limit).value.subs, i);
            if Inherits(table[t].fields[i]) then
              |entries| == 1 && NewNode(table, table[t].subs[i], limit - 1) == Some(entries[0])
            else entries == []
    decreases k
  {
    hide NewNode, DefaultSlot, Offset;
    if i < k - 1 { FreshUpTo(table, t, k - 1, i, limit); }
  }

  lemma FreshEntries(table: seq<Type>, t: nat, node: Node, i: nat)
    requires Table(table) && t < |table| && i < |table[t].fields| && Fresh(table, t, node)
    ensures |table[t].subs| == |table[t].fields|
    ensures var entries := Entries(node.subs, i);
            entries == [] || (Inherits(table[t].fields[i]) && Fresh(table, table[t].subs[i], entries[0]))
  {
    hide Table, NewUpTo;
    Typed(table, t, i);
    if node != EMPTY {
      var limit: nat :| NewNode(table, t, limit) == Some(node);
      FreshUpTo(table, t, |table[t].fields|, i, limit);
    }
  }

  // A record of submessage field i with the block z, alone.
  lemma FirstRecord(table: seq<Type>, t: nat, i: nat, z: bytes, node: Node, limit: nat)
    requires Table(table) && t < |table| && i < |table[t].fields| && table[t].fields[i].ltype.TSubmessage?
    requires |z| < TWO32 && limit > 0 && Fresh(table, t, node)
    requires |table[t].subs| == |table[t].fields|
    requires var base := Base(table, t, i, Entries(node.subs, i), limit);
             base.None? || DecNode(table, table[t].subs[i], z, base.value, limit - 1).Deep?
    ensures DecNode(table, t, Replacing.Wrapped(table[t].fields[i], z), node, limit).Deep?
  {
    hide Table, NewNode, DecNode, DecTag, DecBlock, EncTag, EncBlock, Lookup, Offset, RequiredBefore, Base, Fresh,
      DistinctTags;
    var fields, f := table[t].fields, table[t].fields[i];
    Typed(table, t, i);
    FreshEntries(table, t, node, i);
    var s, tag := Replacing.Wrapped(f, z), EncTag(WT_STRING, f.tag);
    TagOf(WT_STRING, f.tag, EncBlock(z));
    assert s == tag + EncBlock(z) && s[|tag|..] == EncBlock(z);
    LookupKnown(fields, i) by { Tags(fields); }
    BlockRoundTrip(z, []);
    assert EncBlock(z) + [] == EncBlock(z);
    var l := Begin(node);
    var e := EnterFixed(fields, i, l.st);
    assert e.Some? && e.value.fixedCount == 0;
    var sub := DecSub(table, t, i, EncBlock(z), Entries(l.subs, i), 0, limit);
    assert sub.Deep?;
    var entry := DecEntry(table, t, i, WT_STRING, EncBlock(z), l, limit);
    assert entry.Deep?;
    var tagged := DecTagged(table, t, f.tag, WT_STRING, EncBlock(z), l, limit);
    DeepRecords(table, t, s, node, limit);
  }

  lemma Tags(fields: seq<Field>)
    requires DistinctTags(fields)
    ensures forall i, k :: 0 <= i < k < |fields| ==> fields[i].tag != fields[k].tag
  {
  }

  lemma DeepRecords(table: seq<Type>, t: nat, s: bytes, node: Node, limit: nat)
    requires t < |table| && limit > 0 && s != [] && DecTag(s).Tag?
    requires DecTagged(table, t, DecTag(s).tag, DecTag(s).wireType, s[DecTag(s).n..], Begin(node), limit).Deep?
    ensures DecNode(table, t, s, node, limit).Deep?
  {
    hide DecTag, DecTagged;
  }

  // Where a type with endless defaults can start, there is an input on which it does.
  lemma {:induction false} Diverges(table: seq<Type>, p: seq<nat>) returns (s: bytes)
    requires Table(table) && 10 * |table| < TWO32 && Walk(Contained(table), p) && |p| <= |table|
    requires !StartsFinite(table, p[|p| - 1]) && p[0] < |table|
    ensures |s| <= 10 * |p|
    ensures forall node, limit: nat :: Fresh(table, p[0], node) ==> DecNode(table, p[0], s, node, limit).Deep?
    decreases |p|
  {
    hide Table, NewNode, DecNode, Fresh, DefaultsFinite, StartsFinite;
    var t := p[0];
    if |p| == 1 {
      var i := EndlessField(table, t);
      Typed(table, t, i);
      s := Replacing.Wrapped(table[t].fields[i], []);
      WrapShort(table[t].fields[i], []);
      DefaultsReturn(table, table[t].subs[i]);
      forall node, limit: nat | Fresh(table, t, node)
        ensures DecNode(table, t, s, node, limit).Deep?
      {
        if limit == 0 { NoCalls(table, t, s, node); } else { FirstRecord(table, t, i, [], node, limit); }
      }
    } else {
      Tail(Contained(table), p);
      var i := ContainedField(table, t, p[1]);
      Typed(table, t, i);
      var z := Diverges(table, p[1..]);
      s := Replacing.Wrapped(table[t].fields[i], z);
      WrapShort(table[t].fields[i], z);
      forall node, limit: nat | Fresh(table, t, node)
        ensures DecNode(table, t, s, node, limit).Deep?
      {
        if limit == 0 {
          NoCalls(table, t, s, node);
        } else {
          FreshBase(table, t, i, node, limit);
          FirstRecord(table, t, i, z, node, limit);
        }
      }
    }
  }

  lemma NoCalls(table: seq<Type>, t: nat, s: bytes, node: Node)
    ensures DecNode(table, t, s, node, 0).Deep?
  {
  }

  lemma WrapShort(f: Field, z: bytes)
    requires Plain(f) && |z| + 10 < TWO32
    ensures |Replacing.Wrapped(f, z)| <= |z| + 10
  {
    hide EncVarint, Pow2;
    assert Pow2(7 * 5) == 0x8_0000_0000 by { PowValues(); }
    Replacing.VarintLength(f.tag * 8 + WT_STRING, 5, 0x8_0000_0000);
    Replacing.VarintLength(|z|, 5, 0x8_0000_0000);
  }

  lemma EndlessField(table: seq<Type>, t: nat) returns (i: nat)
    requires !StartsFinite(table, t)
    ensures t < |table| && i < |table[t].fields| && i < |table[t].subs|
    ensures Restarts(table[t].fields[i]) && !DefaultsFinite(table, table[t].subs[i])
  {
    hide DefaultsFinite;
    i :| 0 <= i < |table[t].fields| && i < |table[t].subs| && Restarts(table[t].fields[i]) &&
         !DefaultsFinite(table, table[t].subs[i]);
  }

  lemma ContainedField(table: seq<Type>, t: nat, u: nat) returns (i: nat)
    requires u in Contained(table)(t)
    ensures t < |table| && i < |table[t].fields| && i < |table[t].subs|
    ensures table[t].fields[i].ltype.TSubmessage? && table[t].subs[i] == u
  {
    i :| 0 <= i < |table[t].fields| && i < |table[t].subs| && table[t].fields[i].ltype.TSubmessage? &&
         table[t].subs[i] == u;
  }

  lemma FreshBase(table: seq<Type>, t: nat, i: nat, node: Node, limit: nat)
    requires Table(table) && t < |table| && i < |table[t].fields| && |table[t].subs| == |table[t].fields|
    requires Fresh(table, t, node) && limit > 0
    ensures var base := Base(table, t, i, Entries(node.subs, i), limit);
            base.Some? ==> Fresh(table, table[t].subs[i], base.value)
  {
    hide Table, NewNode;
    FreshEntries(table, t, node, i);
  }

  // ---------- when decoding returns ----------

  ghost predicate NoinitReturns(table: seq<Type>, t: nat, s: bytes, node: Node) {
    exists limit: nat :: !DecNode(table, t, s, node, limit).Deep?
  }

  ghost predicate DecodeReturns(table: seq<Type>, t: nat, s: bytes) {
    exists limit: nat :: !DecNew(table, t, s, limit).Deep?
  }

  // An input on which an unsafe type does not return, in a structure nothing was received
  // into.
  lemma UnsafeInput(table: seq<Type>, t: nat) returns (s: bytes)
    requires Table(table) && 10 * |table| < TWO32 && t < |table| && !Safe(table, t)
    ensures |s| <= 10 * |table|
    ensures forall node, limit: nat :: Fresh(table, t, node) ==> DecNode(table, t, s, node, limit).Deep?
  {
    hide Table, DecNode, Fresh, StartsFinite;
    var p: seq<nat> :| Walk(Contained(table), p) && p[0] == t && !StartsFinite(table, p[|p| - 1]);
    var q := Shorten(Contained(table), p);
    WalkInside(table, q);
    Pigeonhole(q, |table|);
    s := Diverges(table, q);
  }

  lemma WalkInside(table: seq<Type>, p: seq<nat>)
    requires Table(table) && Walk(Contained(table), p) && p[0] < |table|
    ensures forall k :: 0 <= k < |p| ==> p[k] < |table|
  {
    hide Table;
    forall k | 0 < k < |p|
      ensures p[k] < |table|
    {
      var i := ContainedField(table, p[k - 1], p[k]);
      Typed(table, p[k - 1], i);
    }
  }

  // pb_decode_noinit returns on all inputs and in all structures exactly when every type
  // that can start anew has finite defaults.
  lemma NoinitReturnsIff(table: seq<Type>, t: nat)
    requires Table(table) && 10 * |table| < TWO32 && t < |table|
    ensures (forall s, node :: NoinitReturns(table, t, s, node)) <==> Safe(table, t)
  {
    hide Table, Safe, DecNode;
    if Safe(table, t) {
      forall s, node
        ensures NoinitReturns(table, t, s, node)
      {
        NodeReturns(table, t, s, node, Enough(table, |s|));
      }
    } else {
      var s := UnsafeInput(table, t);
      assert Fresh(table, t, EMPTY);
      assert !NoinitReturns(table, t, s, EMPTY);
    }
  }

  // pb_decode returns on all inputs exactly when the type itself has finite defaults, too.
  lemma DecodeReturnsIff(table: seq<Type>, t: nat)
    requires Table(table) && 10 * |table| < TWO32 && t < |table|
    ensures (forall s :: DecodeReturns(table, t, s)) <==> DefaultsFinite(table, t) && Safe(table, t)
  {
    hide Table, Safe, DecNode, NewNode, DefaultsFinite;
    DefaultsReturn(table, t);
    if DefaultsFinite(table, t) && Safe(table, t) {
      forall s
        ensures DecodeReturns(table, t, s)
      {
        var limit := Enough(table, |s|);
        NodeReturns(table, t, s, NewNode(table, t, limit).value, limit);
        assert !DecNew(table, t, s, limit).Deep?;
      }
    } else if !DefaultsFinite(table, t) {
      assert !DecodeReturns(table, t, []);
    } else {
      var s := UnsafeInput(table, t);
      forall limit: nat
        ensures DecNew(table, t, s, limit).Deep?
      {
        var node := NewNode(table, t, limit);
        if node.Some? { assert Fresh(table, t, node.value); }
      }
      assert !DecodeReturns(table, t, s);
    }
  }

  // ---------- the limit makes no other difference ----------

  lemma {:induction false} MoreDefaults(table: seq<Type>, u: nat, limit: nat)
    requires NewNode(table, u, limit).Some?
    ensures NewNode(table, u, limit + 1) == NewNode(table, u, limit)
    decreases limit, 0
  {
    MoreUpTo(table, u, |table[u].fields|, limit);
  }

  lemma {:induction false} MoreUpTo(table: seq<Type>, u: nat, i: nat, limit: nat)
    requires u < |table| && i <= |table[u].fields| && limit > 0 && NewUpTo(table, u, i, limit).Some?
    ensures NewUpTo(table, u, i, limit + 1) == NewUpTo(table, u, i, limit)
    decreases limit - 1, 1, i
  {
    hide NewNode, DefaultSlot, Offset;
    if i > 0 {
      MoreUpTo(table, u, i - 1, limit);
      if Inherits(table[u].fields[i - 1]) && i - 1 < |table[u].subs| {
        MoreDefaults(table, table[u].subs[i - 1], limit - 1);
      }
    }
  }

  lemma {:induction false} MoreSub(table: seq<Type>, t: nat, i: nat, s: bytes, entries: seq<Node>, c: nat, limit: nat)
    requires t < |table| && i < |table[t].fields| && i < |table[t].subs| && limit > 0
    requires !DecSub(table, t, i, s, entries, c, limit).Deep?
    ensures DecSub(table, t, i, s, entries, c, limit + 1) == DecSub(table, t, i, s, entries, c, limit)
    decreases limit - 1, |s| + 1, 1
  {
    hide NewNode, DecNode, DecBlock;
    var f, u, data := table[t].fields[i], table[t].subs[i], DecBlock(s);
    var base, more := Base(table, t, i, entries, limit), Base(table, t, i, entries, limit + 1);
    if base.Some? {
      if Restarts(f) { MoreDefaults(table, u, limit - 1); }
      assert more == base;
      if data.Ok? && !DecNode(table, u, data.value, base.value, limit - 1).Deep? {
        MoreCalls(table, u, data.value, base.value, limit - 1);
      }
    }
  }

  lemma {:induction false} MoreEntry(table: seq<Type>, t: nat, i: nat, wireType: nat, s: bytes, l: Loop, limit: nat)
    requires t < |table| && i <= |table[t].fields| && limit > 0
    requires !DecEntry(table, t, i, wireType, s, l, limit).Deep?
    ensures DecEntry(table, t, i, wireType, s, l, limit + 1) == DecEntry(table, t, i, wireType, s, l, limit)
    decreases limit - 1, |s| + 1, 2
  {
    hide DecSub, DecKnown, Offset, RequiredBefore;
    var fields := table[t].fields;
    if i < |fields| && i < |table[t].subs| && fields[i].ltype.TSubmessage? && EnterFixed(fields, i, l.st).Some? {
      var e := EnterFixed(fields, i, l.st).value;
      MoreSub(table, t, i, s, Entries(l.subs, i), e.fixedCount, limit);
    }
  }

  lemma {:induction false} MoreRecords(table: seq<Type>, t: nat, s: bytes, l: Loop, limit: nat)
    requires t < |table| && limit > 0 && !DecRecords(table, t, s, l, limit).Deep?
    ensures DecRecords(table, t, s, l, limit + 1) == DecRecords(table, t, s, l, limit)
    decreases limit - 1, |s| + 1, 4
  {
    hide DecTag, DecEntry, Lookup, Wire.SkipField;
    var tag := DecTag(s);
    if s != [] && tag.Tag? {
      var body, known := s[tag.n..], Lookup(table[t].fields, tag.tag);
      var r := DecTagged(table, t, tag.tag, tag.wireType, body, l, limit);
      if known.Some? { MoreEntry(table, t, known.value, tag.wireType, body, l, limit); }
      assert DecTagged(table, t, tag.tag, tag.wireType, body, l, limit + 1) == r;
      if r.Good? { MoreRecords(table, t, s[tag.n + r.n..], r.value, limit); }
    }
  }

  // Once it is high enough, the result does not depend on the limit.
  lemma {:induction false} MoreCalls(table: seq<Type>, t: nat, s: bytes, node: Node, limit: nat)
    requires !DecNode(table, t, s, node, limit).Deep?
    ensures DecNode(table, t, s, node, limit + 1) == DecNode(table, t, s, node, limit)
    decreases limit, 0
  {
    hide DecRecords;
    MoreRecords(table, t, s, Begin(node), limit);
  }

  // ---------- three types ----------

  // A list: each structure has a pointer to the next.
  lemma ListReturns()
    ensures var table := [Type([Field(1, Pointer, Optional, TSubmessage, 0, 0, 1, 0, [], VInt(0))], [0])];
            Table(table) && DefaultsFinite(table, 0) && Safe(table, 0)
  {
    var table := [Type([Field(1, Pointer, Optional, TSubmessage, 0, 0, 1, 0, [], VInt(0))], [0])];
    assert Entry(table, table[0]);
    NothingInherited(table);
    forall v: nat
      ensures StartsFinite(table, v)
    {
      hide DefaultsFinite;
    }
  }

  lemma NothingInherited(table: seq<Type>)
    requires forall t, i :: 0 <= t < |table| && 0 <= i < |table[t].fields| ==> !Inherits(table[t].fields[i])
    ensures forall u: nat :: DefaultsFinite(table, u)
  {
    forall u: nat
      ensures DefaultsFinite(table, u)
    {
      forall p: seq<nat> | Walk(Inherited(table), p)
        ensures |p| <= 1
      {
        assert |p| > 1 ==> p[1] in Inherited(table)(p[0]);
        assert InheritedTypes(table, p[0]) == {};
      }
    }
  }

  // A structure that contains itself: its defaults do not come to an end, before a byte is
  // read.
  lemma SelfDiverges()
    ensures var table := [Type([Field(1, Static, Optional, TSubmessage, 0, 1, 1, 0, [], VInt(0))], [0])];
            Table(table) && !DecodeReturns(table, 0, [])
  {
    var table := [Type([Field(1, Static, Optional, TSubmessage, 0, 1, 1, 0, [], VInt(0))], [0])];
    assert Entry(table, table[0]);
    SelfEndless(table);
    hide NewNode;
    DefaultsReturn(table, 0);
  }

  lemma SelfEndless(table: seq<Type>)
    requires |table| == 1 && |table[0].fields| >= 1 && |table[0].subs| >= 1 && Inherits(table[0].fields[0])
    requires table[0].subs[0] == 0
    ensures !DefaultsFinite(table, 0)
  {
    InheritedIs(table, 0, 0);
    var p := [0, 0];
    assert Walk(Inherited(table), p) && !Distinct(p) by { assert p[0] == p[1]; }
  }

  // The same with an array of such structures: an empty entry is enough.
  lemma EntryDiverges()
    ensures var table := [Type([Field(1, Static, Optional, TSubmessage, 0, 1, 1, 0, [], VInt(0)),
                                Field(2, Static, Repeated, TSubmessage, 0, 1, 1, 4, [], VInt(0))], [0, 0])];
            Table(table) && !NoinitReturns(table, 0, [18, 0], EMPTY)
  {
    var table := [Type([Field(1, Static, Optional, TSubmessage, 0, 1, 1, 0, [], VInt(0)),
                        Field(2, Static, Repeated, TSubmessage, 0, 1, 1, 4, [], VInt(0))], [0, 0])];
    assert Entry(table, table[0]);
    SelfEndless(table);
    var f := table[0].fields[1];
    assert Replacing.Wrapped(f, []) == [18, 0];
    hide NewNode, DecNode;
    DefaultsReturn(table, 0);
    forall limit: nat
      ensures DecNode(table, 0, [18, 0], EMPTY, limit).Deep?
    {
      if limit == 0 { NoCalls(table, 0, [18, 0], EMPTY); } else { FirstRecord(table, 0, 1, [], EMPTY, limit); }
    }
  }
}
