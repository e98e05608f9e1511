// pb_decode over an input stream, for message types that contain themselves. Termination is
// proved with measures on the input, and for defaults on the types; every method is proved
// against Cyclic, with nested calls enough for its input.
module CyclicDecoder {
  import opened Bits
  import opened Wire
  import opened Streams
  import opened Fields
  import opened FieldIterator
  import opened Encoding
  import opened Decoding
  import opened Schema
  import opened Cyclic
  import opened Termination
  import opened Unfolding
  import Decoder

  lemma TypeTags(table: seq<Type>, t: nat)
    requires Table(table) && t < |table|
    ensures DistinctTags(table[t].fields) && forall i :: 0 <= i < |table[t].fields| ==> table[t].fields[i].tag != 0
  {
    assert Entry(table, table[t]);
  }

  // ---------- defaults ----------

  // pb_message_set_to_defaults
  method SetToDefaults(table: seq<Type>, u: nat, ghost limit: nat) returns (node: Node)
    requires Table(table) && u < |table| && NewNode(table, u, limit).Some?
    ensures NewNode(table, u, limit) == Some(node)
    decreases limit
  {
    hide Table, Offset, SizeAddress, RequiredBefore, DefaultSlot, AtMember, DistinctTags;
    TypeTags(table, u);
    var iter := new FieldIter(table[u].fields);
    node := EMPTY;
    if table[u].fields == [] { return; }
    ghost var n := |table[u].fields|;
    var more := true;
    while more
      invariant iter.Valid() && iter.start == table[u].fields && fresh(iter)
      invariant NewUpTo(table, u, if more then iter.pos else n, limit) == Some(node)
      decreases if more then n - iter.pos else 0
      modifies iter
    {
      ghost var i := iter.pos;
      Typed(table, u, i);
      UpToSome(table, u, i + 1, n, limit);
      var f, subs := iter.start[iter.pos], [];
      if Inherits(f) {
        var sub := SetToDefaults(table, table[u].subs[iter.pos], limit - 1);
        subs := [sub];
      }
      node := Node(node.slots[iter.pData := DefaultSlot(f, One(VRaw))], node.subs[iter.pos := subs]);
      more := iter.Next();
    }
  }

  lemma {:induction false} UpToSome(table: seq<Type>, u: nat, i: nat, n: nat, limit: nat)
    requires u < |table| && i <= n <= |table[u].fields| && limit > 0 && NewUpTo(table, u, n, limit).Some?
    ensures NewUpTo(table, u, i, limit).Some?
    decreases n
  {
    hide NewNode, DefaultSlot, Offset;
    if i < n { UpToSome(table, u, i, n - 1, limit); }
  }

  // ---------- submessages ----------

  // pb_dec_submessage; a late one is set to defaults when its block has been found.
  method DecodeSubmessage(s: IStream, table: seq<Type>, u: nat, late: bool, base: Node, ghost limit: nat)
    returns (ok: bool, m: Node)
    requires s.Valid() && Table(table) && Safe(table, u) && u < |table| && (late ==> NewNode(table, u, limit).Some?)
    requires DecBlock(s.Rest()).Ok? ==> limit >= Enough(table, |DecBlock(s.Rest()).value|)
    modifies s
    ensures s.Valid() && s.End() <= old(s.End())
    ensures var block := DecBlock(old(s.Rest()));
            var from := if late then NewNode(table, u, limit).value else base;
            var r := if block.Ok? then DecNode(table, u, block.value, from, limit) else Bad;
            && (ok <==> r.Good?)
            && (ok ==> r.value == m && s.Consumed(block.n))
    decreases s.left, 0
  {
    hide Table, Safe, NewNode, DecNode, DecBlock;
    m := base;
    var got, sub := s.MakeSubstream();
    if !got { return false, m; }
    if late { m := SetToDefaults(table, u, limit); }
    ok, m := DecodeNoinit(sub, table, u, m, limit);
    var closed := s.CloseSubstream(sub);
  }

  // Where every type that starts is safe, the structure to decode into is there.
  lemma SubCases(table: seq<Type>, t: nat, i: nat, s: bytes, entries: seq<Node>, counter: nat, limit: nat)
    requires Table(table) && Safe(table, t) && t < |table| && i < |table[t].fields|
    requires i < |table[t].subs| && table[t].fields[i].ltype.TSubmessage? && limit > |table|
    ensures table[t].subs[i] < |table| && Safe(table, table[t].subs[i])
    ensures var base := Base(table, t, i, entries, limit);
            && base.Some?
            && base == (if Restarts(table[t].fields[i]) then NewNode(table, table[t].subs[i], limit - 1)
                        else Some(if entries == [] then EMPTY else entries[0]))
    ensures var f, u, k := table[t].fields[i], table[t].subs[i], Index(table[t].fields[i], entries, counter);
            var base, block := Base(table, t, i, entries, limit).value, DecBlock(s);
            var sub := if block.Ok? then DecNode(table, u, block.value, base, limit - 1) else Bad;
            DecSub(table, t, i, s, entries, counter, limit) ==
              if f.htype.Repeated? && k >= Capacity(f) then Bad
              else if sub.Good? then Good((Put(f, entries, k, sub.value), Bump(f, counter)), block.n)
              else if sub.Bad? then Bad else Deep
  {
    hide Table, Safe, NewNode, DecNode, DecBlock, DefaultsFinite;
    Typed(table, t, i);
    SafeBelow(table, t, i);
    if Restarts(table[t].fields[i]) {
      SafeStart(table, t, i);
      DefaultsReturn(table, table[t].subs[i]);
    }
  }

  // A submessage of field i: one that starts anew is set to defaults first, or, in a static
  // array, when its block has been found.
  method DecodeEntry(s: IStream, table: seq<Type>, t: nat, i: nat, entries: seq<Node>, counter: nat, ghost limit: nat)
    returns (ok: bool, entries': seq<Node>, counter': nat)
    requires s.Valid() && Table(table) && Safe(table, t) && t < |table| && i < |table[t].fields|
    requires i < |table[t].subs| && table[t].fields[i].ltype.TSubmessage? && limit >= Enough(table, s.left + 1)
    modifies s
    ensures s.Valid() && s.End() <= old(s.End())
    ensures var r := DecSub(table, t, i, old(s.Rest()), entries, counter, limit);
            && (ok <==> r.Good?)
            && (ok ==> r.value == (entries', counter') && s.Consumed(r.n))
    decreases s.left, 1
  {
    hide Table, Safe, NewNode, DecNode, DecBlock, DecSub, Base, Put, Index, Capacity, DefaultsFinite;
    entries', counter' := entries, counter;
    var f, u := table[t].fields[i], table[t].subs[i];
    var k := Index(f, entries, counter);
    SubCases(table, t, i, s.Rest(), entries, counter, limit);
    if f.htype.Repeated? && k >= Capacity(f) { return false, entries, counter; }
    var base := if entries == [] then EMPTY else entries[0];
    if Restarts(f) && !Late(f) { base := SetToDefaults(table, u, limit - 1); }
    var m;
    ok, m := DecodeSubmessage(s, table, u, Late(f), base, limit - 1);
    entries', counter' := Put(f, entries, k, m), Bump(f, counter);
  }

  // ---------- the loop over all fields ----------

  lemma EntryKinds(table: seq<Type>, t: nat, i: nat)
    requires Table(table) && t < |table| && i <= |table[t].fields|
    ensures |table[t].subs| == |table[t].fields|
    ensures var f := FieldAt(table[t].fields, i);
            if f.ltype.TSubmessage? then i < |table[t].fields| && i < |table[t].subs| && table[t].fields[i] == f
            else Decoder.Decodable(f)
  {
    hide Table, DistinctTags;
    if i < |table[t].fields| {
      Typed(table, t, i);
    } else {
      assert Entry(table, table[t]) by { EntryOf(table, t); }
    }
  }

  lemma EntryOf(table: seq<Type>, t: nat)
    requires Table(table) && t < |table|
    ensures Entry(table, table[t])
  {
  }

  lemma EntryCases(table: seq<Type>, t: nat, i: nat, wireType: nat, s: bytes, l: Loop, limit: nat)
    requires t < |table| && i <= |table[t].fields| && |table[t].subs| == |table[t].fields| && limit > 0
    ensures var fields, offset := table[t].fields, Offset(table[t].fields, i);
            var f, e := FieldAt(fields, i), EnterFixed(fields, i, l.st);
            var r := DecEntry(table, t, i, wireType, s, l, limit);
            && (e.None? ==> r == Bad)
            && (e.Some? && f.ltype.TSubmessage? && i < |fields| ==>
                  var sub := DecSub(table, t, i, s, Entries(l.subs, i), e.value.fixedCount, limit);
                  && (sub.Good? <==> r.Good?)
                  && (sub.Good? ==>
                        var msg := e.value.msg[offset := Shell(f, Get(e.value.msg, offset))];
                        var st := State(msg, MarkSeen(fields, i, e.value.seen), e.value.fixedField, sub.value.1);
                        r == Good(Loop(st, l.subs[i := sub.value.0]), sub.n)))
            && (e.Some? && !f.ltype.TSubmessage? ==>
                  var field := DecField(f, wireType, s, Get(e.value.msg, offset), e.value.fixedCount);
                  && (field.Ok? <==> r.Good?)
                  && (field.Ok? ==>
                        var msg := e.value.msg[offset := field.value.0];
                        var st := State(msg, MarkSeen(fields, i, e.value.seen), e.value.fixedField, field.value.1);
                        r == Good(Loop(st, l.subs), field.n)))
  {
    hide DecSub, DecField, Offset, Shell, MarkSeen, EnterFixed;
  }

  // One record of a field that was found.
  method DecodeKnown(s: IStream, wireType: nat, table: seq<Type>, t: nat, iter: FieldIter, node: Node,
      fixedField: Option<nat>, fixedCount: nat, ghost seen: set<nat>, ghost limit: nat)
    returns (ok: bool, node': Node, fixedField': Option<nat>, fixedCount': nat)
    requires s.Valid() && iter.Valid() && Table(table) && Safe(table, t) && t < |table| && iter.start == table[t].fields
    requires fixedField.Some? ==> fixedField.value < |iter.start|
    requires limit >= Enough(table, s.left + 1)
    modifies s
    ensures s.Valid() && s.End() <= old(s.End())
    ensures var l := Loop(State(node.slots, seen, fixedField, fixedCount), node.subs);
            var r := DecEntry(table, t, iter.pos, wireType, old(s.Rest()), l, limit);
            var st' := State(node'.slots, MarkSeen(iter.start, iter.pos, seen), fixedField', fixedCount');
            && (ok <==> r.Good?)
            && (ok ==> r.value == Loop(st', node'.subs) && s.Consumed(r.n))
    decreases s.left, 2
  {
    hide Table, Safe, DecSub, DecField, DecEntry, Offset, SizeAddress, RequiredBefore, AtMember, MarkSeen, Get,
      DistinctTags, Shell;
    EntryKinds(table, t, iter.pos);
    EntryCases(table, t, iter.pos, wireType, s.Rest(), Loop(State(node.slots, seen, fixedField, fixedCount), node.subs),
      limit);
    node', fixedField', fixedCount' := node, fixedField, fixedCount;
    var f := FieldAt(iter.start, iter.pos);
    if f.htype.Repeated? { Decoder.CountAddress(iter.start, iter.pos); }
    if f.htype.Repeated? && iter.pSize == iter.pData {
      if fixedField != Some(iter.pos) {
        if fixedField.Some? && fixedCount != iter.start[fixedField.value].arraySize {
          return false, node', fixedField', fixedCount';
        }
        fixedField', fixedCount' := Some(iter.pos), 0;
      }
    }
    if f.ltype.TSubmessage? {
      var entries;
      ok, entries, fixedCount' := DecodeEntry(s, table, t, iter.pos, Entries(node.subs, iter.pos), fixedCount', limit);
      node' := Node(node.slots[iter.pData := Shell(f, Get(node.slots, iter.pData))], node.subs[iter.pos := entries]);
    } else {
      var slot;
      ghost var none;
      ok, slot, fixedCount', none := Decoder.DecodeField(s, wireType, f, Get(node.slots, iter.pData), fixedCount');
      node' := Node(node.slots[iter.pData := slot], node.subs);
    }
  }

  // A record after its tag: skipped when no field has the tag.
  method DecodeTagged(s: IStream, tag: nat, wireType: nat, table: seq<Type>, t: nat, iter: FieldIter, words: array<nat>,
      node: Node, fixedField: Option<nat>, fixedCount: nat, ghost seen: set<nat>, ghost limit: nat)
    returns (ok: bool, node': Node, fixedField': Option<nat>, fixedCount': nat, ghost seen': set<nat>)
    requires s.Valid() && iter.Valid() && Table(table) && Safe(table, t) && t < |table| && iter.start == table[t].fields
    requires words.Length == 2 && Decoder.SeenBits(words[..], seen)
    requires fixedField.Some? ==> fixedField.value < |iter.start|
    requires limit >= Enough(table, s.left + 1)
    modifies s, iter, words
    ensures s.Valid() && s.End() <= old(s.End()) && iter.Valid()
    ensures Decoder.SeenBits(words[..], seen')
    ensures var l := Loop(State(node.slots, seen, fixedField, fixedCount), node.subs);
            var r := DecTagged(table, t, tag, wireType, old(s.Rest()), l, limit);
            && (ok <==> r.Good?)
            && (ok ==> r.value == Loop(State(node'.slots, seen', fixedField', fixedCount'), node'.subs))
            && (ok ==> s.Consumed(r.n))
    decreases s.left, 3
  {
    hide FieldIter.Valid, Decoder.SeenBits, Wire.SkipField, Lookup, MarkSeen, DistinctTags, Table, Safe, DecEntry;
    node', fixedField', fixedCount', seen' := node, fixedField, fixedCount, seen;
    TypeTags(table, t);
    var found := iter.Find(tag);
    PosInside(iter);
    Decoder.FoundIsLookup(iter.start, tag, found, iter.pos);
    if !found {
      ok := s.SkipField(wireType);
      return;
    }
    Decoder.MarkField(iter, words, seen);
    seen' := MarkSeen(iter.start, iter.pos, seen);
    ok, node', fixedField', fixedCount' :=
      DecodeKnown(s, wireType, table, t, iter, node, fixedField, fixedCount, seen, limit);
  }

  // Everything the loop keeps between two records.
  ghost predicate Running(table: seq<Type>, t: nat, s0: bytes, l0: Loop, rest: bytes, l: Loop, limit: nat,
      status: Decoder.Status)
  {
    && t < |table| && limit > 0 && |rest| <= |s0| && Decoder.InBounds(table[t].fields, l.st)
    && match status
       case More => DecRecords(table, t, s0, l0, limit) == Moved(|s0| - |rest|, DecRecords(table, t, rest, l, limit))
       case End => DecRecords(table, t, s0, l0, limit) == Good(l, |s0| - |rest|)
       case Bad => false
  }

  // What one round makes of it.
  lemma RunningStep(table: seq<Type>, t: nat, s0: bytes, l0: Loop, rest: bytes, l: Loop, limit: nat)
    requires Running(table, t, s0, l0, rest, l, limit, Decoder.More) && rest != []
    ensures var tag := DecTag(rest);
            && (tag.BadTag? ==> !DecRecords(table, t, s0, l0, limit).Good?)
            && (tag.Terminator? ==> Running(table, t, s0, l0, rest[tag.n..], l, limit, Decoder.End))
            && (tag.Tag? ==>
                  var r := DecTagged(table, t, tag.tag, tag.wireType, rest[tag.n..], l, limit);
                  if r.Good? then Running(table, t, s0, l0, rest[tag.n + r.n..], r.value, limit, Decoder.More)
                  else !DecRecords(table, t, s0, l0, limit).Good?)
    ensures l.st.fixedField.Some? ==> l.st.fixedField.value < |table[t].fields|
  {
    hide DecTag, DecTagged, Decoder.InBounds;
    assert l.st.fixedField.Some? ==> l.st.fixedField.value < |table[t].fields| by { Bounded(table[t].fields, l.st); }
    var tag := DecTag(rest);
    if tag.Tag? {
      var r := DecTagged(table, t, tag.tag, tag.wireType, rest[tag.n..], l, limit);
      if r.Good? {
        TaggedBounds(table, t, tag.tag, tag.wireType, rest[tag.n..], l, limit);
      }
    }
  }

  lemma Bounded(fields: seq<Field>, st: State)
    requires Decoder.InBounds(fields, st)
    ensures st.fixedField.Some? ==> st.fixedField.value < |fields|
    ensures fields != [] ==> forall r :: r in st.seen ==> r < RequiredBefore(fields, |fields|)
  {
  }

  lemma TaggedBounds(table: seq<Type>, t: nat, tag: nat, wireType: nat, s: bytes, l: Loop, limit: nat)
    requires t < |table| && limit > 0 && Decoder.InBounds(table[t].fields, l.st)
    requires DecTagged(table, t, tag, wireType, s, l, limit).Good?
    ensures Decoder.InBounds(table[t].fields, DecTagged(table, t, tag, wireType, s, l, limit).value.st)
  {
    hide DecSub, DecField, Wire.SkipField, RequiredBefore, Offset, Shell;
    var fields, known := table[t].fields, Lookup(table[t].fields, tag);
    if known.Some? {
      if known.value < |fields| && fields[known.value].htype.Required? {
        RequiredMonotone(fields, known.value, |fields|);
      }
      var r := DecEntry(table, t, known.value, wireType, s, l, limit);
      assert r.Good? && Decoder.InBounds(fields, r.value.st);
    }
  }

  // One round of the loop of pb_decode_noinit.
  method DecodeRecord(s: IStream, table: seq<Type>, t: nat, iter: FieldIter, words: array<nat>,
      node: Node, fixedField: Option<nat>, fixedCount: nat, ghost seen: set<nat>, ghost limit: nat)
    returns (status: Decoder.Status, node': Node, fixedField': Option<nat>, fixedCount': nat, ghost seen': set<nat>)
    requires s.Valid() && iter.Valid() && s.left > 0 && Table(table) && Safe(table, t) && t < |table|
    requires iter.start == table[t].fields && words.Length == 2 && Decoder.SeenBits(words[..], seen)
    requires fixedField.Some? ==> fixedField.value < |iter.start|
    requires limit >= Enough(table, s.left)
    modifies s, iter, words
    ensures s.Valid() && s.End() <= old(s.End()) && iter.Valid()
    ensures Decoder.SeenBits(words[..], seen')
    ensures var l := Loop(State(node.slots, seen, fixedField, fixedCount), node.subs);
            var l' := Loop(State(node'.slots, seen', fixedField', fixedCount'), node'.subs);
            var tag := DecTag(old(s.Rest()));
            && (tag.BadTag? ==> status.Bad?)
            && (tag.Terminator? ==> status.End? && s.Consumed(tag.n) && l' == l)
            && (tag.Tag? ==>
                  var r := DecTagged(table, t, tag.tag, tag.wireType, old(s.Rest())[tag.n..], l, limit);
                  && status == (if r.Good? then Decoder.More else Decoder.Bad)
                  && (r.Good? ==> l' == r.value && s.Consumed(tag.n + r.n)))
    decreases s.left, 4
  {
    hide FieldIter.Valid, Decoder.SeenBits, DecTag, DecTagged, Table, Safe;
    node', fixedField', fixedCount', seen' := node, fixedField, fixedCount, seen;
    ghost var rest := s.Rest();
    var got, wireType, tag, eof := s.DecodeTag();
    if !got {
      status := if eof then Decoder.End else Decoder.Bad;
      return;
    }
    ghost var body := s.Rest();
    var ok;
    ok, node', fixedField', fixedCount', seen' :=
      DecodeTagged(s, tag, wireType, table, t, iter, words, node, fixedField, fixedCount, seen, limit);
    status := if ok then Decoder.More else Decoder.Bad;
  }

  lemma RunningStart(table: seq<Type>, t: nat, s0: bytes, node: Node, limit: nat)
    requires t < |table| && limit > 0
    ensures Running(table, t, s0, Begin(node), s0, Begin(node), limit, Decoder.More)
  {
    hide DecRecords;
  }

  lemma RunEnds(table: seq<Type>, t: nat, s0: bytes, node: Node, rest: bytes, l: Loop, limit: nat,
        status: Decoder.Status)
    requires Running(table, t, s0, Begin(node), rest, l, limit, status) && (status.More? ==> rest == [])
    ensures table[t].fields != [] ==>
              forall r :: r in l.st.seen ==> r < RequiredBefore(table[t].fields, |table[t].fields|)
    ensures l.st.fixedField.Some? ==> l.st.fixedField.value < |table[t].fields|
    ensures DecNode(table, t, s0, node, limit) ==
            if FixedDone(table[t].fields, l.st) && RequiredDone(table[t].fields, l.st.seen)
            then Good(Node(l.st.msg, l.subs), |s0| - |rest|)
            else Bad
  {
  }

  // pb_decode_noinit
  method DecodeNoinit(s: IStream, table: seq<Type>, t: nat, node: Node, ghost limit: nat)
    returns (ok: bool, node': Node)
    requires s.Valid() && Table(table) && Safe(table, t) && t < |table| && limit >= Enough(table, s.left)
    modifies s
    ensures s.Valid() && s.End() <= old(s.End())
    ensures var r := DecNode(table, t, old(s.Rest()), node, limit);
            && (ok <==> r.Good?)
            && (ok ==> r.value == node' && s.Consumed(r.n))
    decreases s.left, 5
  {
    hide FieldIter.Valid, Decoder.SeenBits, Decoder.InBounds, RequiredDone, DistinctTags, Table, Safe, DecRecords,
      DecTag, DecTagged, Running;
    TypeTags(table, t);
    var fields := table[t].fields;
    var iter := new FieldIter(fields);
    var words := new nat[2](_ => 0);
    ghost var seen: set<nat>, s0 := {}, s.Rest();
    Decoder.NothingSeen(words[..]);
    var fixedField: Option<nat>, fixedCount: nat := None, 0;
    node' := node;
    RunningStart(table, t, s0, node, limit);
    var status := Decoder.More;
    while s.left > 0 && status.More?
      invariant s.Valid() && s.End() == old(s.End()) && s.left <= old(s.left)
      invariant iter.Valid() && iter.start == fields && fresh(iter) && fresh(words) && words.Length == 2
      invariant Decoder.SeenBits(words[..], seen) && !status.Bad?
      invariant var l := Loop(State(node'.slots, seen, fixedField, fixedCount), node'.subs);
                Running(table, t, s0, Begin(node), s.Rest(), l, limit, status)
      decreases status.More?, s.left
    {
      ghost var rest, l := s.Rest(), Loop(State(node'.slots, seen, fixedField, fixedCount), node'.subs);
      RunningStep(table, t, s0, Begin(node), rest, l, limit);
      status, node', fixedField, fixedCount, seen :=
        DecodeRecord(s, table, t, iter, words, node', fixedField, fixedCount, seen, limit);
      if status.Bad? { return false, node'; }
    }
    ghost var l := Loop(State(node'.slots, seen, fixedField, fixedCount), node'.subs);
    RunEnds(table, t, s0, node, s.Rest(), l, limit, status);
    if fixedField.Some? && fixedCount != iter.start[fixedField.value].arraySize { return false, node'; }
    ok := Decoder.CheckRequired(iter, words, seen);
  }

  // With so many nested calls decoding is not cut off, and is that of the unfolded descriptor.
  lemma Finished(table: seq<Type>, t: nat, s: bytes, limit: nat)
    requires Table(table) && Safe(table, t) && DefaultsFinite(table, t) && t < |table| && limit >= Enough(table, |s|)
    ensures !DecNew(table, t, s, limit).Deep?
    ensures LaidOut(table) ==>
              var r, q := DecNew(table, t, s, limit), Decoding.Decode(Unfold(table, t, limit), s, map[]);
              && (r.Bad? <==> q.Fail?)
              && (r.Good? ==> r.n == q.n && Unfolding.Holds(table, t, r.value, q.value))
  {
    hide Table, Safe, DefaultsFinite, NewNode, DecNode, LaidOut, Unfold, Shown, DefaultMsg, DecMsg;
    DefaultsReturn(table, t);
    NodeReturns(table, t, s, NewNode(table, t, limit).value, limit);
    if LaidOut(table) { DecodedAnew(table, t, s, limit); }
  }

  // pb_decode
  method Decode(s: IStream, table: seq<Type>, t: nat, ghost limit: nat) returns (ok: bool, node: Node)
    requires s.Valid() && Table(table) && Safe(table, t) && DefaultsFinite(table, t) && t < |table|
    requires limit >= Enough(table, s.left)
    modifies s
    ensures s.Valid() && s.End() <= old(s.End())
    ensures var r := DecNew(table, t, old(s.Rest()), limit);
            && (ok <==> r.Good?)
            && (ok ==> r.value == node && s.Consumed(r.n))
    ensures LaidOut(table) ==>
              var q := Decoding.Decode(Unfold(table, t, limit), old(s.Rest()), map[]);
              && (ok <==> q.Ok?)
              && (ok ==> s.Consumed(q.n) && Unfolding.Holds(table, t, node, q.value))
  {
    hide Table, Safe, DefaultsFinite, NewNode, DecNode, LaidOut, Unfold, Shown, DefaultMsg, DecMsg;
    ghost var rest := s.Rest();
    DefaultsReturn(table, t);
    Finished(table, t, rest, limit);
    node := SetToDefaults(table, t, limit);
    ok, node := DecodeNoinit(s, table, t, node, limit);
  }
}
