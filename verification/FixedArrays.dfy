// Arrays with a fixed count: their defaults leave them uninitialized, but an array that
// is received at all is received whole.
module FixedArrays {
  import opened Wire
  import opened Fields
  import opened Encoding
  import opened Decoding
  import opened Schema
  import opened Order
  import opened Required
  import opened RoundTrip
  import opened Transfer

  // The first n entries were written.
  predicate Written(items: seq<Value>, n: nat) {
    n <= |items| && forall k :: 0 <= k < n ==> !items[k].VRaw?
  }

  predicate Whole(f: Field, s: Slot) {
    s.Fixed? && |s.items| == f.arraySize
  }

  lemma ScalarWritten(f: Field, s: bytes)
    requires DecScalar(f, s).Ok?
    ensures !DecScalar(f, s).value.VRaw?
  {
    hide DecVarint, DecVarint32, DecBlock, FixedValue;
  }

  lemma {:induction false} PackedWritten(f: Field, data: bytes, slot: Slot, c: nat)
    requires f.atype.Static?
    requires FixedCount(f) && Whole(f, slot) && Written(slot.items, c) && DecPacked(f, data, slot, c).Some?
    ensures var r := DecPacked(f, data, slot, c).value; Whole(f, r.0) && Written(r.0.items, r.1)
    decreases |data|
  {
    hide DecScalar;
    if data != [] {
      var r := DecScalar(f, data);
      ScalarWritten(f, data);
      PackedWritten(f, data[r.n..], PutItem(f, slot, c, r.value), c + 1);
    }
  }

  lemma FieldWritten(f: Field, wireType: nat, s: bytes, slot: Slot, c: nat)
    requires f.atype.Static?
    requires FixedCount(f) && Whole(f, slot) && Written(slot.items, c) && DecField(f, wireType, s, slot, c).Ok?
    ensures var r := DecField(f, wireType, s, slot, c).value; Whole(f, r.0) && Written(r.0.items, r.1)
  {
    hide DecBlock, DecPacked, DecScalar, DecMsg;
    if wireType == WT_STRING && Packable(f.ltype) {
      PackedWritten(f, DecBlock(s).value, slot, c);
    } else if !f.ltype.TSubmessage? {
      ScalarWritten(f, s);
    }
  }

  // Of the arrays received so far all but the current one are complete, and that one up
  // to the counter.
  ghost predicate Progress(fields: seq<Field>, st: State, tags: set<nat>) {
    && (st.fixedField.Some? ==> st.fixedField.value < |fields| && FixedCount(fields[st.fixedField.value]))
    && (forall j :: 0 <= j < |fields| && FixedCount(fields[j]) ==> Received(fields, j, st, tags))
  }

  ghost predicate Received(fields: seq<Field>, j: nat, st: State, tags: set<nat>)
    requires j < |fields|
  {
    var slot := Get(st.msg, Offset(fields, j));
    && Whole(fields[j], slot)
    && (st.fixedField == Some(j) ==> Written(slot.items, st.fixedCount))
    && (fields[j].tag in tags && st.fixedField != Some(j) ==> Written(slot.items, fields[j].arraySize))
  }

  lemma {:induction false} KnownProgress(fields: seq<Field>, i: nat, wireType: nat, s: bytes, st: State, tags: set<nat>)
    requires WellFormed(fields) && i < |fields| && Progress(fields, st, tags)
               && DecKnown(fields, i, wireType, s, st).Next?
    ensures Progress(fields, DecKnown(fields, i, wireType, s, st).st, tags + {fields[i].tag})
  {
    hide DecField, Offset, RequiredBefore, WellFormedField;
    var f, e, r := fields[i], EnterFixed(fields, i, st).value, DecKnown(fields, i, wireType, s, st).st;
    if FixedCount(f) {
      UnfoldField(f);
      assert Received(fields, i, st, tags);
      FieldWritten(f, wireType, s, Get(st.msg, Offset(fields, i)), e.fixedCount);
    } else {
      CounterKept(f, wireType, s, Get(st.msg, Offset(fields, i)), st.fixedCount);
    }
    forall j | 0 <= j < |fields| && FixedCount(fields[j])
      ensures Received(fields, j, r, tags + {f.tag})
    {
      assert Received(fields, j, st, tags);
      if j != i {
        OwnStorage(fields, i, j);
        KnownOtherSlot(fields, i, wireType, s, st, Offset(fields, j));
      }
    }
  }

  // No other field has the storage of an array.
  lemma OwnStorage(fields: seq<Field>, i: nat, j: nat)
    requires WellFormed(fields) && i < |fields| && j < |fields| && i != j && fields[j].htype.Repeated?
    ensures Offset(fields, i) != Offset(fields, j) && fields[i].tag != fields[j].tag
  {
    hide WellFormedField;
    StorageDisjoint(fields, i, j);
    if Leader(fields, i) == Leader(fields, j) {
      if i < j { LeaderShared(fields, i, j); } else { LeaderShared(fields, j, i); }
    }
  }

  lemma {:induction false} LoopProgress(fields: seq<Field>, s: bytes, st: State, tags: set<nat>) returns (all: set<nat>)
    requires WellFormed(fields) && fields != [] && Progress(fields, st, tags) && DecLoop(fields, s, st).Done?
    ensures Progress(fields, DecLoop(fields, s, st).st, all)
    ensures tags <= all && forall t :: t in TagsRead(fields, s, st) ==> t in all
    decreases |s|
  {
    hide DecTag, DecKnown, WellFormed, Progress, Wire.SkipField;
    all := tags;
    if s != [] && Step(fields, s, st).Next? {
      var r, tag := Step(fields, s, st), DecTag(s);
      var known := Lookup(fields, tag.tag);
      if known.Some? {
        KnownProgress(fields, known.value, tag.wireType, s[tag.n..], st, tags);
      } else {
        UnknownProgress(fields, st, tags, tag.tag);
      }
      all := LoopProgress(fields, s[r.n..], r.st, tags + {tag.tag});
    }
  }

  lemma UnknownProgress(fields: seq<Field>, st: State, tags: set<nat>, tag: nat)
    requires Progress(fields, st, tags) && fields != [] && Lookup(fields, tag).None?
    ensures Progress(fields, st, tags + {tag})
  {
    forall j | 0 <= j < |fields| && FixedCount(fields[j])
      ensures Received(fields, j, st, tags + {tag})
    {
      assert Received(fields, j, st, tags);
    }
  }

  // After a successful decode, an array with a fixed count of which any record occurred
  // has all its entries written.
  lemma ReceivedWhole(fields: seq<Field>, s: bytes, m: Message, j: nat)
    requires WellFormed(fields) && j < |fields| && FixedCount(fields[j])
    requires forall k :: 0 <= k < |fields| && FixedCount(fields[k]) ==> Whole(fields[k], Get(m, Offset(fields, k)))
    requires DecMsg(fields, s, m).Ok? && fields[j].tag in TagsRead(fields, s, Start(m))
    ensures var slot := Get(DecMsg(fields, s, m).value, Offset(fields, j));
            Whole(fields[j], slot) && Written(slot.items, fields[j].arraySize)
  {
    hide DecLoop, TagsRead, WellFormed, Offset;
    var all := LoopProgress(fields, s, Start(m), {});
    assert Received(fields, j, DecLoop(fields, s, Start(m)).st, all);
  }
}
