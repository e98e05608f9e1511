// Reading is local: a step of the decoder depends only on the bytes it consumes and on
// the slot it updates. So decoding a concatenation is decoding its parts in turn, and
// records of different fields may be exchanged.
module Locality {
  import opened Wire
  import opened Fields
  import opened Encoding
  import opened Decoding

  lemma RawLocal(s: bytes, t: bytes, n: nat)
    requires Raw(s, n).Ok?
    ensures Raw(s + t, n) == Raw(s, n)
  {
    assert (s + t)[..n] == s[..n];
  }

  lemma ScalarLocal(f: Field, s: bytes, t: bytes)
    requires DecScalar(f, s).Ok?
    ensures DecScalar(f, s + t) == DecScalar(f, s)
  {
    hide DecVarint32, Groups, DecBlock, Raw;
    if f.ltype.TBool? {
      Varint32Local(s, t);
    } else if f.ltype.TFixed32? {
      RawLocal(s, t, 4);
    } else if f.ltype.TFixed64? {
      RawLocal(s, t, 8);
    } else if Packable(f.ltype) {
      GroupsLocal(s, t, 10);
    } else {
      BlockLocal(s, t);
    }
  }

  lemma ValueLocal(f: Field, s: bytes, t: bytes, slot0: Slot, slot: Slot)
    requires DecValue(f, s, slot0).Ok?
    ensures DecValue(f, s + t, slot) == DecValue(f, s, slot)
  {
    hide DecBlock, DecMsg;
    if f.ltype.TSubmessage? {
      BlockLocal(s, t);
    } else {
      ScalarLocal(f, s, t);
    }
  }

  // A field that could be read into some state reads the same bytes into any state.
  lemma FieldLocal(f: Field, wireType: nat, s: bytes, t: bytes, slot0: Slot, c0: nat, slot: Slot, c: nat)
    requires DecField(f, wireType, s, slot0, c0).Ok?
    ensures DecField(f, wireType, s + t, slot, c) == DecField(f, wireType, s, slot, c)
  {
    hide DecBlock, DecPacked, DecValue;
    if f.htype.Repeated? && wireType == WT_STRING && Packable(f.ltype) {
      BlockLocal(s, t);
    } else {
      ValueLocal(f, s, t, slot0, slot);
    }
  }

  lemma TagLocal(s: bytes, t: bytes)
    requires DecTag(s).Tag?
    ensures DecTag(s + t) == DecTag(s)
  {
    hide DecVarint32;
    Varint32Local(s, t);
  }

  lemma KnownLocal(fields: seq<Field>, i: nat, wireType: nat, s: bytes, t: bytes, st0: State, st: State)
    requires i <= |fields| && DecKnown(fields, i, wireType, s, st0).Next?
    ensures DecKnown(fields, i, wireType, s + t, st) == DecKnown(fields, i, wireType, s, st)
  {
    hide DecField;
    var offset := Offset(fields, i);
    var e0, e := EnterFixed(fields, i, st0), EnterFixed(fields, i, st);
    if e.Some? {
      FieldLocal(FieldAt(fields, i), wireType, s, t,
        Get(e0.value.msg, offset), e0.value.fixedCount, Get(e.value.msg, offset), e.value.fixedCount);
    }
  }

  lemma StepLocal(fields: seq<Field>, s: bytes, t: bytes, st0: State, st: State)
    requires Step(fields, s, st0).Next?
    ensures Step(fields, s + t, st) == Step(fields, s, st)
  {
    hide DecTag, Lookup, DecKnown, Wire.SkipField;
    TagLocal(s, t);
    var n := DecTag(s).n;
    assert (s + t)[n..] == s[n..] + t;
    var i := Lookup(fields, DecTag(s).tag);
    if i.Some? {
      KnownLocal(fields, i.value, DecTag(s).wireType, s[n..], t, st0, st);
    } else {
      SkipLocal(DecTag(s).wireType, s[n..], t);
    }
  }

  // The result of a run over bytes that follow n others.
  function Shift(n: nat, r: Run): Run {
    match r
    case Done(st, k, stopped) => Done(st, n + k, stopped)
    case Failed => Failed
  }

  // One complete record at the front.
  lemma LoopStep(fields: seq<Field>, rec: bytes, t: bytes, st: State)
    requires Step(fields, rec, st).Next? && Step(fields, rec, st).n == |rec|
    ensures DecLoop(fields, rec + t, st) == Shift(|rec|, DecLoop(fields, t, Step(fields, rec, st).st))
  {
    hide Step;
    StepLocal(fields, rec, t, st, st);
    assert (rec + t)[|rec|..] == t;
  }

  // A run that was not stopped by a terminator consumed everything.
  lemma {:induction false} RunsToEnd(fields: seq<Field>, s: bytes, st: State)
    requires DecLoop(fields, s, st).Done? && !DecLoop(fields, s, st).stopped
    ensures DecLoop(fields, s, st).n == |s|
    decreases |s|
  {
    if s != [] {
      var r := Step(fields, s, st);
      RunsToEnd(fields, s[r.n..], r.st);
    }
  }

  // Decoding a ++ b is decoding a and going on with b, unless a ends the message.
  lemma {:induction false} LoopConcat(fields: seq<Field>, a: bytes, b: bytes, st: State)
    requires DecLoop(fields, a, st).Done? && !DecLoop(fields, a, st).stopped
    ensures DecLoop(fields, a + b, st) == Shift(|a|, DecLoop(fields, b, DecLoop(fields, a, st).st))
    decreases |a|
  {
    hide Step;
    if a == [] {
      assert a + b == b;
    } else {
      var r := Step(fields, a, st);
      StepLocal(fields, a, b, st, st);
      assert (a + b)[r.n..] == a[r.n..] + b;
      LoopConcat(fields, a[r.n..], b, r.st);
    }
  }
}
