// Message types of which every message sets the whole structure. Only for these does it
// make no difference what was received before.
module Replacing {
  import opened Bits
  import opened Wire
  import opened Fields
  import opened Encoding
  import opened Decoding
  import opened Records
  import opened Order
  import opened Schema
  import opened Values
  import opened Locality
  import opened Transfer
  import opened Required
  import Framing
  import RoundTrip

  function Defaults(fields: seq<Field>): Message {
    DefaultMsg(fields, map[])
  }

  predicate Readable(fields: seq<Field>, x: bytes) {
    |x| < TWO32 && DecMsg(fields, x, Defaults(fields)).Ok?
  }

  // Whatever a message contains, another one behind it makes up for all of it.
  ghost predicate Forgetful(fields: seq<Field>) {
    forall x, y :: Readable(fields, x) && Readable(fields, y) && |x + y| < TWO32 && !Terminated(fields, x) ==>
      DecMsg(fields, x + y, Defaults(fields)).Ok? &&
      DecMsg(fields, x + y, Defaults(fields)).value == DecMsg(fields, y, Defaults(fields)).value
  }

  // Every field is required, and tracked, at every depth; there is at least one.
  predicate Determined(fields: seq<Field>)
    decreases fields
  {
    && fields != [] && |fields| <= MAX_REQUIRED_FIELDS
    && forall i :: 0 <= i < |fields| ==>
         fields[i].htype.Required? && (fields[i].ltype.TSubmessage? ==> Determined(fields[i].sub))
  }

  // ---------- a message that sets everything ----------

  // The structure has exactly the members of its descriptor.
  ghost predicate Keyed(fields: seq<Field>, m: Message)
    decreases fields
  {
    && (forall i :: 0 <= i < |fields| ==> Offset(fields, i) in m && KeyedSlot(fields[i], m[Offset(fields, i)]))
    && (forall o :: o in m ==> exists i :: 0 <= i < |fields| && Offset(fields, i) == o)
  }

  ghost predicate KeyedSlot(f: Field, s: Slot)
    decreases f
  {
    f.ltype.TSubmessage? ==> Keyed(f.sub, AsMsg(ValueOf(s)))
  }

  lemma {:induction false} DefaultKeyed(fields: seq<Field>)
    requires WellFormed(fields) && Determined(fields)
    ensures Keyed(fields, Defaults(fields))
    decreases fields
  {
    hide LayoutOk, Offset;
    forall i | 0 <= i < |fields|
      ensures Offset(fields, i) in Defaults(fields) && KeyedSlot(fields[i], Defaults(fields)[Offset(fields, i)])
    {
      assert WellFormedField(fields[i]);
      Framing.DefaultHas(fields, |fields|, i, map[]);
      RoundTrip.DefaultAt(fields, |fields|, i, map[]);
      if fields[i].ltype.TSubmessage? { DefaultKeyed(fields[i].sub); }
    }
    forall o | o in Defaults(fields)
      ensures exists i :: 0 <= i < |fields| && Offset(fields, i) == o
    {
      var i := Framing.DefaultKey(fields, |fields|, o, map[]);
    }
  }

  lemma {:induction false} RequiredIndex(fields: seq<Field>, i: nat)
    requires i <= |fields| && forall k :: 0 <= k < |fields| ==> fields[k].htype.Required?
    ensures RequiredBefore(fields, i) == i
  {
    if i > 0 { RequiredIndex(fields, i - 1); }
  }

  // Two runs that agree on the fields that were received.
  ghost predicate Agreeing(fields: seq<Field>, a: State, b: State) {
    && Keyed(fields, a.msg) && Keyed(fields, b.msg)
    && a.seen == b.seen && a.fixedField.None? && b.fixedField.None? && a.fixedCount == b.fixedCount
    && forall i :: 0 <= i < |fields| && i in a.seen ==> a.msg[Offset(fields, i)] == b.msg[Offset(fields, i)]
  }

  lemma {:induction false} FieldAnew(f: Field, wireType: nat, s: bytes, a: Slot, b: Slot, c: nat)
    requires WellFormedField(f) && f.htype.Required? && (f.ltype.TSubmessage? ==> Determined(f.sub))
    requires KeyedSlot(f, a) && KeyedSlot(f, b)
    ensures DecField(f, wireType, s, a, c) == DecField(f, wireType, s, b, c)
    ensures DecField(f, wireType, s, a, c).Ok? ==> KeyedSlot(f, DecField(f, wireType, s, a, c).value.0)
    decreases |s|, 0
  {
    hide DecBlock, DecMsg, DecScalar, Keyed, Determined, WellFormed;
    var block := DecBlock(s);
    if f.ltype.TSubmessage? && block.Ok? {
      MsgAnew(f.sub, block.value, AsMsg(ValueOf(a)), AsMsg(ValueOf(b)));
    }
    assert DecValue(f, s, a) == DecValue(f, s, b);
  }

  lemma {:induction false} KnownAnew(fields: seq<Field>, i: nat, wireType: nat, s: bytes, a: State, b: State)
    requires WellFormed(fields) && Determined(fields) && i < |fields| && Agreeing(fields, a, b)
    ensures var x, y := DecKnown(fields, i, wireType, s, a), DecKnown(fields, i, wireType, s, b);
            x.Next? == y.Next? && (x.Next? ==> x.n == y.n && Agreeing(fields, x.st, y.st))
    decreases |s|, 1
  {
    hide DecField, WellFormedField, KeyedSlot, LayoutOk, Offset, RequiredBefore;
    var f, offset := fields[i], Offset(fields, i);
    assert WellFormedField(f) && f.htype.Required?;
    RequiredIndex(fields, i);
    FieldAnew(f, wireType, s, a.msg[offset], b.msg[offset], a.fixedCount);
    var r := DecField(f, wireType, s, a.msg[offset], a.fixedCount);
    if r.Ok? {
      CounterKept(f, wireType, s, a.msg[offset], a.fixedCount);
      SlotKeyed(fields, i, a.msg, r.value.0);
      SlotKeyed(fields, i, b.msg, r.value.0);
      forall k | 0 <= k < |fields| && k != i
        ensures Offset(fields, k) != offset
      {
        OwnOffset(fields, i, k);
      }
    }
  }

  lemma SlotKeyed(fields: seq<Field>, i: nat, m: Message, slot: Slot)
    requires WellFormed(fields) && Determined(fields) && i < |fields| && Keyed(fields, m) && KeyedSlot(fields[i], slot)
    ensures Keyed(fields, m[Offset(fields, i) := slot])
  {
    hide WellFormedField, KeyedSlot, LayoutOk, Offset;
    forall k | 0 <= k < |fields| && k != i
      ensures Offset(fields, k) != Offset(fields, i)
    {
      OwnOffset(fields, i, k);
    }
  }

  // A required field has storage of its own.
  lemma OwnOffset(fields: seq<Field>, i: nat, j: nat)
    requires LayoutOk(fields) && i < |fields| && j < |fields| && i != j && fields[i].htype.Required?
    ensures Offset(fields, i) != Offset(fields, j)
  {
    hide LayoutOk, Offset;
    StorageDisjoint(fields, i, j);
    if Leader(fields, i) == Leader(fields, j) {
      if i < j { RoundTrip.LeaderShared(fields, i, j); } else { RoundTrip.LeaderShared(fields, j, i); }
    }
  }

  lemma {:induction false} LoopAnew(fields: seq<Field>, s: bytes, a: State, b: State)
    requires WellFormed(fields) && Determined(fields) && Agreeing(fields, a, b)
    ensures var x, y := DecLoop(fields, s, a), DecLoop(fields, s, b);
            x.Done? == y.Done? && (x.Done? ==> x.n == y.n && x.stopped == y.stopped && Agreeing(fields, x.st, y.st))
    decreases |s|, 2
  {
    hide DecTag, Lookup, DecKnown, WellFormed, Determined, Agreeing, Wire.SkipField, DistinctTags;
    if s != [] {
      var tag := DecTag(s);
      if tag.Tag? {
        var known := Lookup(fields, tag.tag);
        if known.Some? {
          KnownInside(fields, tag.tag);
          KnownAnew(fields, known.value, tag.wireType, s[tag.n..], a, b);
        }
      }
      var x, y := Step(fields, s, a), Step(fields, s, b);
      if x.Next? { LoopAnew(fields, s[x.n..], x.st, y.st); }
    }
  }

  lemma KnownInside(fields: seq<Field>, tag: nat)
    requires fields != [] || Determined(fields)
    ensures Lookup(fields, tag).Some? ==> Lookup(fields, tag).value < |fields|
  {
  }

  // What is read into two structures of such a type is the same.
  lemma {:induction false} MsgAnew(fields: seq<Field>, s: bytes, a: Message, b: Message)
    requires WellFormed(fields) && Determined(fields) && Keyed(fields, a) && Keyed(fields, b)
    ensures DecMsg(fields, s, a) == DecMsg(fields, s, b)
    ensures DecMsg(fields, s, a).Ok? ==> Keyed(fields, DecMsg(fields, s, a).value)
    decreases |s|, 3
  {
    hide DecLoop, WellFormed, KeyedSlot, RequiredBefore, Offset;
    LoopAnew(fields, s, Start(a), Start(b));
    var x, y := DecLoop(fields, s, Start(a)), DecLoop(fields, s, Start(b));
    if x.Done? && RequiredDone(fields, x.st.seen) {
      RequiredIndex(fields, |fields|);
      assert forall i :: 0 <= i < |fields| ==> i in x.st.seen;
      assert x.st.msg == y.st.msg;
    }
  }

  lemma DeterminedForgets(fields: seq<Field>)
    requires WellFormed(fields) && Determined(fields)
    ensures Forgetful(fields)
  {
    hide DecMsg, WellFormed, Terminated, Keyed, Defaults;
    DefaultKeyed(fields);
    forall x, y | Readable(fields, x) && Readable(fields, y) && |x + y| < TWO32 && !Terminated(fields, x)
      ensures DecMsg(fields, x + y, Defaults(fields)).Ok?
      ensures DecMsg(fields, x + y, Defaults(fields)).value == DecMsg(fields, y, Defaults(fields)).value
    {
      MsgAnew(fields, x, Defaults(fields), Defaults(fields));
      MsgAnew(fields, y, DecMsg(fields, x, Defaults(fields)).value, Defaults(fields));
      NotTerminated(fields, x, Defaults(fields));
      ConcatenationMerges(fields, x, y, Defaults(fields));
    }
  }

  lemma NotTerminated(fields: seq<Field>, x: bytes, m: Message)
    requires DecMsg(fields, x, m).Ok? && !Terminated(fields, x)
    ensures !DecLoop(fields, x, Start(m)).stopped
  {
    hide Terminated, DecLoop;
    StoppedIsTerminated(fields, x, Start(m));
  }

  // ---------- a message that leaves something ----------

  // A record for field i that is accepted, and leaves something other than its default.
  ghost predicate Sample(fields: seq<Field>, i: nat, rec: bytes)
    requires i < |fields|
  {
    var d := Defaults(fields);
    && IsRecord(fields, rec, Start(d)) && DecTag(rec).tag == fields[i].tag
    && SampleSlot(fields, i, rec) != Get(d, Offset(fields, i))
  }

  ghost function SampleSlot(fields: seq<Field>, i: nat, rec: bytes): Slot
    requires i < |fields| && IsRecord(fields, rec, Start(Defaults(fields)))
  {
    Get(Step(fields, rec, Start(Defaults(fields))).st.msg, Offset(fields, i))
  }

  function Total(recs: seq<bytes>): nat {
    if recs == [] then 0 else |recs[0]| + Total(recs[1..])
  }

  ghost predicate Samples(fields: seq<Field>, recs: seq<bytes>) {
    |recs| == |fields| && forall i :: 0 <= i < |fields| ==> Sample(fields, i, recs[i])
  }

  // Every field can hold something other than its default, at every depth, and two
  // messages that show it take at most n bytes.
  ghost predicate Rich(fields: seq<Field>, n: int)
    decreases fields
  {
    && WellFormed(fields) && NoFixedCount(fields)
    && exists recs: seq<bytes> :: Samples(fields, recs) && RichBelow(fields, n - 2 * Total(recs) - 20)
  }

  ghost predicate RichBelow(fields: seq<Field>, n: int)
    decreases fields, 0
  {
    n >= 0 && forall i :: 0 <= i < |fields| && fields[i].ltype.TSubmessage? ==> Rich(fields[i].sub, n)
  }

  // What a sample does in a state where its field still has the default.
  lemma SampleRuns(fields: seq<Field>, i: nat, rec: bytes, st: State)
    requires WellFormed(fields) && NoFixedCount(fields) && i < |fields| && Sample(fields, i, rec)
    requires Get(st.msg, Offset(fields, i)) == Get(Defaults(fields), Offset(fields, i)) && st.fixedField.None?
    ensures Step(fields, rec, st) ==
            Next(State(st.msg[Offset(fields, i) := SampleSlot(fields, i, rec)], MarkSeen(fields, i, st.seen), None,
                       st.fixedCount), |rec|)
  {
    hide DecTag, DecField, WellFormed, Offset, Defaults, RequiredBefore, Lookup, Wire.SkipField;
    var tag, st0 := DecTag(rec), Start(Defaults(fields));
    var body, offset := rec[tag.n..], Offset(fields, i);
    assert Lookup(fields, tag.tag) == Some(i) by { TagsNonzero(fields); LookupKnown(fields, i); }
    assert !FixedCount(FieldAt(fields, i));
    KnownEffect(fields, i, tag.wireType, body, st0);
    KnownEffect(fields, i, tag.wireType, body, st);
    FieldFixedFree(fields[i], tag.wireType, body, Get(st.msg, offset), 0, st.fixedCount);
    MarkedMore(fields, i, st.seen);
  }

  lemma MarkedMore(fields: seq<Field>, i: nat, seen: set<nat>)
    requires i <= |fields|
    ensures seen + MarkSeen(fields, i, {}) == MarkSeen(fields, i, seen)
  {
    hide RequiredBefore;
  }

  // The samples of the required fields that are tracked, from field k on, but for one.
  ghost function Must(fields: seq<Field>, recs: seq<bytes>, k: nat, skip: nat): bytes
    requires |recs| == |fields| && k <= |fields|
    decreases |fields| - k
  {
    if k == |fields| then []
    else (if Tracked(fields, k) && k != skip then recs[k] else []) + Must(fields, recs, k + 1, skip)
  }

  lemma {:induction false} MustLength(fields: seq<Field>, recs: seq<bytes>, k: nat, skip: nat)
    requires |recs| == |fields| && k <= |fields|
    ensures |Must(fields, recs, k, skip)| <= Total(recs[k..])
    ensures skip < k || skip >= |fields| || |Must(fields, recs, k, skip)| + |recs[skip]| <= Total(recs[k..])
    decreases |fields| - k
  {
    if k < |fields| {
      MustLength(fields, recs, k + 1, skip);
      assert recs[k..][0] == recs[k] && recs[k..][1..] == recs[k + 1..];
    }
  }

  // The field at `offset` is none of those that Must is about from k on.
  ghost predicate Untouched(fields: seq<Field>, k: nat, skip: nat, offset: nat) {
    forall i :: k <= i < |fields| && Tracked(fields, i) && i != skip ==> Offset(fields, i) != offset
  }

  // From a state with defaults these records are received.
  lemma {:induction false} MustRuns(fields: seq<Field>, recs: seq<bytes>, k: nat, skip: nat, st: State)
    returns (end: State)
    requires WellFormed(fields) && NoFixedCount(fields) && Samples(fields, recs) && k <= |fields| && st.fixedField.None?
    requires forall i :: k <= i < |fields| && Tracked(fields, i) && i != skip ==>
               Get(st.msg, Offset(fields, i)) == Get(Defaults(fields), Offset(fields, i))
    ensures var s := Must(fields, recs, k, skip); DecLoop(fields, s, st) == Done(end, |s|, false)
    ensures end.fixedField.None? && st.seen <= end.seen
    ensures forall i :: k <= i < |fields| && Tracked(fields, i) && i != skip ==> RequiredBefore(fields, i) in end.seen
    decreases |fields| - k
  {
    hide Step, WellFormed, Offset, Defaults, RequiredBefore, Sample, SampleSlot, NoFixedCount;
    if k == |fields| {
      LoopEnd(fields, st);
      return st;
    }
    if Tracked(fields, k) && k != skip {
      var rec, rest := recs[k], Must(fields, recs, k + 1, skip);
      IsSample(fields, k, rec);
      SampleRuns(fields, k, rec, st);
      LoopStep(fields, rec, rest, st);
      var st1 := Step(fields, rec, st).st;
      OwnOffsets(fields, k);
      end := MustRuns(fields, recs, k + 1, skip, st1);
      Marked(fields, k, st.seen);
    } else {
      end := MustRuns(fields, recs, k + 1, skip, st);
      assert [] + Must(fields, recs, k + 1, skip) == Must(fields, recs, k + 1, skip);
    }
  }

  lemma OwnOffsets(fields: seq<Field>, k: nat)
    requires WellFormed(fields) && k < |fields| && Tracked(fields, k)
    ensures forall i :: k < i < |fields| && Tracked(fields, i) ==> Offset(fields, i) != Offset(fields, k)
  {
    hide Offset, WellFormed, RequiredBefore;
    WellFormedParts(fields);
    forall i | k < i < |fields| && Tracked(fields, i)
      ensures Offset(fields, i) != Offset(fields, k)
    {
      OwnOffset(fields, k, i);
    }
  }

  lemma IsSample(fields: seq<Field>, i: nat, rec: bytes)
    requires i < |fields| && Sample(fields, i, rec)
    ensures IsRecord(fields, rec, Start(Defaults(fields)))
  {
    hide IsRecord, DecTag, Defaults, Offset;
  }

  lemma WellFormedParts(fields: seq<Field>)
    requires WellFormed(fields)
    ensures LayoutOk(fields)
    ensures forall i :: 0 <= i < |fields| ==> WellFormedField(fields[i])
  {
  }

  lemma Marked(fields: seq<Field>, i: nat, seen: set<nat>)
    requires i < |fields| && Tracked(fields, i)
    ensures seen <= MarkSeen(fields, i, seen) && RequiredBefore(fields, i) in MarkSeen(fields, i, seen)
  {
    hide RequiredBefore;
  }

  // In any state they leave other fields alone, as far as they are received.
  lemma {:induction false} MustLeaves(fields: seq<Field>, recs: seq<bytes>, k: nat, skip: nat, st: State, offset: nat)
    requires WellFormed(fields) && NoFixedCount(fields) && Samples(fields, recs) && k <= |fields|
    requires Untouched(fields, k, skip, offset) && DecLoop(fields, Must(fields, recs, k, skip), st).Done?
    ensures Get(DecLoop(fields, Must(fields, recs, k, skip), st).st.msg, offset) == Get(st.msg, offset)
    decreases |fields| - k
  {
    hide Step, WellFormed, Offset, Defaults, RequiredBefore, Sample, NoFixedCount;
    if k == |fields| {
      LoopEnd(fields, st);
    } else if Tracked(fields, k) && k != skip {
      var rec, rest := recs[k], Must(fields, recs, k + 1, skip);
      IsSample(fields, k, rec);
      RecordStep(fields, rec, rest, Start(Defaults(fields)), st);
      SampleLeaves(fields, k, rec, st, offset);
      MustLeaves(fields, recs, k + 1, skip, Step(fields, rec, st).st, offset);
    } else {
      assert [] + Must(fields, recs, k + 1, skip) == Must(fields, recs, k + 1, skip);
      MustLeaves(fields, recs, k + 1, skip, st, offset);
    }
  }

  lemma SampleLeaves(fields: seq<Field>, i: nat, rec: bytes, st: State, offset: nat)
    requires WellFormed(fields) && i < |fields| && Sample(fields, i, rec) && offset != Offset(fields, i)
    ensures Step(fields, rec, st).Next? ==> Get(Step(fields, rec, st).st.msg, offset) == Get(st.msg, offset)
  {
    hide DecTag, DecKnown, WellFormed, Offset, Defaults, Lookup, Wire.SkipField;
    var tag := DecTag(rec);
    assert Lookup(fields, tag.tag) == Some(i) by { TagsNonzero(fields); LookupKnown(fields, i); }
    if Step(fields, rec, st).Next? { KnownOtherSlot(fields, i, tag.wireType, rec[tag.n..], st, offset); }
  }

  // A run that saw all tracked fields is a message.
  lemma AllSeen(fields: seq<Field>, x: bytes, m: Message, end: State, but: nat)
    requires DecLoop(fields, x, Start(m)) == Done(end, |x|, false) && end.fixedField.None?
    requires forall i :: 0 <= i < |fields| && Tracked(fields, i) && i != but ==> RequiredBefore(fields, i) in end.seen
    requires but < |fields| && Tracked(fields, but) ==> RequiredBefore(fields, but) in end.seen
    ensures DecMsg(fields, x, m) == Ok(end.msg, |x|) && !Terminated(fields, x)
  {
    hide DecLoop, Terminated, RequiredBefore;
    StoppedIsTerminated(fields, x, Start(m));
    forall r | 0 <= r < RequiredBefore(fields, |fields|) && r < MAX_REQUIRED_FIELDS
      ensures r in end.seen
    {
      var j := RequiredField(fields, |fields|, r);
      assert Tracked(fields, j);
    }
  }

  // x and y show that something of x survives y, or that they cannot be joined.
  ghost predicate Survives(fields: seq<Field>, x: bytes, y: bytes) {
    var d := Defaults(fields);
    && DecMsg(fields, x, d).Ok? && DecMsg(fields, y, d).Ok? && !Terminated(fields, x)
    && !(DecMsg(fields, x + y, d).Ok? && DecMsg(fields, x + y, d).value == DecMsg(fields, y, d).value)
  }

  // The run on x ++ y is that on x and then on y.
  lemma JoinedRun(fields: seq<Field>, x: bytes, y: bytes, end: State)
    requires DecLoop(fields, x, Start(Defaults(fields))) == Done(end, |x|, false)
    ensures DecLoop(fields, x + y, Start(Defaults(fields))) == Shift(|x|, DecLoop(fields, y, end))
  {
    hide DecLoop;
    LoopConcat(fields, x, y, Start(Defaults(fields)));
  }

  lemma JoinedMsg(fields: seq<Field>, x: bytes, y: bytes, end: State)
    requires DecLoop(fields, x, Start(Defaults(fields))) == Done(end, |x|, false)
    ensures DecMsg(fields, x + y, Defaults(fields)).Ok? ==>
              var r := DecLoop(fields, y, end);
              r.Done? && DecMsg(fields, x + y, Defaults(fields)).value == r.st.msg
  {
    hide DecLoop, Defaults;
    JoinedRun(fields, x, y, end);
  }

  // A field that need not be there keeps what x brought.
  lemma OptionalSurvives(fields: seq<Field>, recs: seq<bytes>, j: nat) returns (x: bytes, y: bytes)
    requires WellFormed(fields) && NoFixedCount(fields) && Samples(fields, recs) && j < |fields| && !Tracked(fields, j)
    ensures Survives(fields, x, y) && |x + y| <= 2 * Total(recs)
  {
    hide Step, DecLoop, DecMsg, WellFormed, Offset, Defaults, RequiredBefore, Sample, NoFixedCount, Terminated, Must;
    var none, offset, st0 := |fields|, Offset(fields, j), Start(Defaults(fields));
    y := Must(fields, recs, 0, none);
    x := recs[j] + y;
    assert Untouched(fields, 0, none, offset) by { UntrackedOffset(fields, j); }
    SampleRuns(fields, j, recs[j], st0);
    IsSample(fields, j, recs[j]);
    LoopStep(fields, recs[j], y, st0);
    var st1 := Step(fields, recs[j], st0).st;
    forall i | 0 <= i < |fields| && Tracked(fields, i)
      ensures Get(st1.msg, Offset(fields, i)) == Get(st0.msg, Offset(fields, i))
    {
      assert Offset(fields, i) != offset;
    }
    var endY := MustRuns(fields, recs, 0, none, st0);
    var endX := MustRuns(fields, recs, 0, none, st1);
    MustLeaves(fields, recs, 0, none, st0, offset);
    MustLeaves(fields, recs, 0, none, st1, offset);
    AllSeen(fields, y, Defaults(fields), endY, none);
    AllSeen(fields, x, Defaults(fields), endX, none);
    JoinedMsg(fields, x, y, endX);
    if DecMsg(fields, x + y, Defaults(fields)).Ok? {
      MustLeaves(fields, recs, 0, none, endX, offset);
      SampleDiffers(fields, j, recs[j]);
    }
    MustTwice(fields, recs, j, none);
  }

  lemma SampleDiffers(fields: seq<Field>, i: nat, rec: bytes)
    requires i < |fields| && Sample(fields, i, rec)
    ensures IsRecord(fields, rec, Start(Defaults(fields)))
    ensures SampleSlot(fields, i, rec) != Get(Defaults(fields), Offset(fields, i))
  {
    hide IsRecord, DecTag, Defaults, Offset;
  }

  lemma UntrackedOffset(fields: seq<Field>, j: nat)
    requires WellFormed(fields) && j < |fields| && !Tracked(fields, j)
    ensures Untouched(fields, 0, |fields|, Offset(fields, j))
  {
    hide WellFormed, Offset, RequiredBefore;
    WellFormedParts(fields);
    forall i | 0 <= i < |fields| && Tracked(fields, i)
      ensures Offset(fields, i) != Offset(fields, j)
    {
      OwnOffset(fields, i, j);
    }
  }

  lemma {:induction false} TotalHas(recs: seq<bytes>, j: nat)
    requires j < |recs|
    ensures |recs[j]| <= Total(recs)
  {
    if j > 0 { TotalHas(recs[1..], j - 1); }
  }

  // The untracked record is not among the others.
  lemma MustTwice(fields: seq<Field>, recs: seq<bytes>, j: nat, none: nat)
    requires |recs| == |fields| && j < |fields| && !Tracked(fields, j) && none == |fields|
    ensures |recs[j]| + |Must(fields, recs, 0, none)| <= Total(recs) && |Must(fields, recs, 0, none)| <= Total(recs)
  {
    hide RequiredBefore;
    assert recs[0..] == recs;
    MustLength(fields, recs, 0, j);
    MustSame(fields, recs, 0, j, none);
  }

  lemma {:induction false} MustSame(fields: seq<Field>, recs: seq<bytes>, k: nat, j: nat, none: nat)
    requires |recs| == |fields| && k <= |fields| && j < |fields| && !Tracked(fields, j) && none >= |fields|
    ensures Must(fields, recs, k, j) == Must(fields, recs, k, none)
    decreases |fields| - k
  {
    hide RequiredBefore;
    if k < |fields| { MustSame(fields, recs, k + 1, j, none); }
  }

  // ---------- a submessage of which something survives ----------

  // One record of field i with the block z.
  function Wrapped(f: Field, z: bytes): bytes {
    EncTag(WT_STRING, f.tag) + EncBlock(z)
  }

  lemma WrapRuns(fields: seq<Field>, i: nat, z: bytes, t: bytes, st: State)
    requires WellFormed(fields) && i < |fields| && fields[i].htype.Required? && fields[i].ltype.TSubmessage?
    requires |z| < TWO32
    ensures var base := AsMsg(ValueOf(Get(st.msg, Offset(fields, i))));
            DecLoop(fields, Wrapped(fields[i], z) + t, st) ==
            match DecMsg(fields[i].sub, z, base)
            case Ok(m, _) =>
              var st1 := State(st.msg[Offset(fields, i) := One(VMsg(m))], MarkSeen(fields, i, st.seen), st.fixedField,
                               st.fixedCount);
              Shift(|Wrapped(fields[i], z)|, DecLoop(fields, t, st1))
            case Fail => Failed
  {
    hide DecLoop, DecMsg, DecBlock, EncBlock, EncTag, WellFormed, Offset, RequiredBefore, Lookup;
    var f, slot := fields[i], Get(st.msg, Offset(fields, i));
    assert WellFormedField(f) by { WellFormedParts(fields); }
    assert 1 <= f.tag <= MAX_TAG && f.atype.Static? by { UnfoldField(f); }
    LookupKnown(fields, i) by { TagsNonzero(fields); }
    KnownRecord(fields, i, WT_STRING, f.tag, EncBlock(z), t, st);
    BlockRoundTrip(z, t);
    var value := DecValue(f, EncBlock(z) + t, slot);
    var r := DecField(f, WT_STRING, EncBlock(z) + t, slot, st.fixedCount);
    var sub := DecMsg(f.sub, z, AsMsg(ValueOf(slot)));
    assert r == if sub.Ok? then Ok((One(VMsg(sub.value)), st.fixedCount), |EncBlock(z)|) else Fail;
  }

  lemma {:induction false} VarintLength(v: nat, n: nat, bound: nat)
    requires v < bound && n >= 1 && bound == Pow2(7 * n)
    ensures |EncVarint(v)| <= n
    decreases n
  {
    assert Pow2(7) == 128;
    if v >= 128 {
      PowAdd(7, 7 * (n - 1));
      VarintLength(v / 128, n - 1, Pow2(7 * (n - 1)));
    }
  }

  lemma WrapLength(f: Field, z: bytes)
    requires WellFormedField(f) && |z| < TWO32
    ensures |Wrapped(f, z)| <= |z| + 10
  {
    hide EncVarint, Pow2;
    UnfoldField(f);
    assert Pow2(7 * 5) == 0x8_0000_0000 by { PowValues(); }
    VarintLength(f.tag * 8 + WT_STRING, 5, 0x8_0000_0000);
    VarintLength(|z|, 5, 0x8_0000_0000);
  }

  // A message that starts with the block z in field i, and has a sample of every other.
  ghost function Around(fields: seq<Field>, recs: seq<bytes>, i: nat, z: bytes): bytes
    requires |recs| == |fields| && i < |fields|
  {
    Wrapped(fields[i], z) + Must(fields, recs, 0, i)
  }

  lemma DefaultSub(fields: seq<Field>, i: nat)
    requires WellFormed(fields) && i < |fields| && fields[i].htype.Required? && fields[i].ltype.TSubmessage?
    ensures AsMsg(ValueOf(Get(Defaults(fields), Offset(fields, i)))) == Defaults(fields[i].sub)
  {
    hide Offset, DefaultMsg, WellFormedField;
    WellFormedParts(fields);
    assert fields[i].atype.Static? by { UnfoldField(fields[i]); }
    var d := Defaults(fields);
    assert d == DefaultUpTo(fields, |fields|, map[]) by { DefaultIs(fields); }
    RoundTrip.DefaultAt(fields, |fields|, i, map[]);
  }

  lemma DefaultIs(fields: seq<Field>)
    ensures Defaults(fields) == DefaultUpTo(fields, |fields|, map[])
  {
  }

  // What such a message makes of a structure whose other fields have their defaults.
  lemma AroundRuns(fields: seq<Field>, recs: seq<bytes>, i: nat, z: bytes) returns (end: State)
    requires WellFormed(fields) && NoFixedCount(fields) && Samples(fields, recs) && |z| < TWO32
    requires i < |fields| && Tracked(fields, i) && fields[i].ltype.TSubmessage?
    requires DecMsg(fields[i].sub, z, Defaults(fields[i].sub)).Ok?
    ensures var x, m := Around(fields, recs, i, z), DecMsg(fields[i].sub, z, Defaults(fields[i].sub)).value;
            && DecLoop(fields, x, Start(Defaults(fields))) == Done(end, |x|, false)
            && DecMsg(fields, x, Defaults(fields)) == Ok(end.msg, |x|) && !Terminated(fields, x)
            && Get(end.msg, Offset(fields, i)) == One(VMsg(m))
  {
    hide DecLoop, DecMsg, Step, WellFormed, Offset, Defaults, RequiredBefore, Sample, NoFixedCount, Terminated, Must,
      Wrapped;
    var st0, offset := Start(Defaults(fields)), Offset(fields, i);
    var m := DecMsg(fields[i].sub, z, Defaults(fields[i].sub)).value;
    DefaultSub(fields, i);
    WrapRuns(fields, i, z, Must(fields, recs, 0, i), st0);
    var st1 := State(st0.msg[offset := One(VMsg(m))], MarkSeen(fields, i, st0.seen), st0.fixedField, st0.fixedCount);
    RestUntouched(fields, i);
    end := MustRuns(fields, recs, 0, i, st1);
    MustLeaves(fields, recs, 0, i, st1, offset);
    Marked(fields, i, st0.seen);
    AllSeen(fields, Around(fields, recs, i, z), Defaults(fields), end, i);
  }

  // The other required fields are stored elsewhere.
  lemma RestUntouched(fields: seq<Field>, i: nat)
    requires WellFormed(fields) && i < |fields| && Tracked(fields, i)
    ensures Untouched(fields, 0, i, Offset(fields, i))
  {
    hide WellFormed, Offset, RequiredBefore;
    WellFormedParts(fields);
    forall k | 0 <= k < |fields| && Tracked(fields, k) && k != i
      ensures Offset(fields, k) != Offset(fields, i)
    {
      OwnOffset(fields, k, i);
    }
  }

  // What survives inside a required submessage survives in the message around it.
  lemma NestedSurvives(fields: seq<Field>, recs: seq<bytes>, i: nat, a: bytes, b: bytes)
    requires WellFormed(fields) && NoFixedCount(fields) && Samples(fields, recs)
    requires i < |fields| && Tracked(fields, i) && fields[i].ltype.TSubmessage? && NoFixedCount(fields[i].sub)
    requires Survives(fields[i].sub, a, b) && |a| < TWO32 && |b| < TWO32
    ensures Survives(fields, Around(fields, recs, i, a), Around(fields, recs, i, b))
  {
    hide DecLoop, DecMsg, Step, WellFormed, Offset, Defaults, RequiredBefore, Sample, NoFixedCount, Terminated, Must,
      Wrapped;
    var sub, offset, rest := fields[i].sub, Offset(fields, i), Must(fields, recs, 0, i);
    var x, y, d := Around(fields, recs, i, a), Around(fields, recs, i, b), Defaults(fields);
    var endX := AroundRuns(fields, recs, i, a);
    var endY := AroundRuns(fields, recs, i, b);
    JoinedMsg(fields, x, y, endX);
    WrapRuns(fields, i, b, rest, endX);
    if DecMsg(fields, x + y, d).Ok? {
      var ma := DecMsg(sub, a, Defaults(sub)).value;
      var joined := DecMsg(sub, b, ma);
      assert joined.Ok?;
      NotTerminated(sub, a, Defaults(sub));
      ConcatenationMerges(sub, a, b, Defaults(sub));
      var st2 := State(endX.msg[offset := One(VMsg(joined.value))], MarkSeen(fields, i, endX.seen), endX.fixedField,
                       endX.fixedCount);
      RestUntouched(fields, i);
      MustLeaves(fields, recs, 0, i, st2, offset);
    }
  }

  // In an empty message type, a record with tag zero survives.
  lemma EmptySurvives() returns (x: bytes, y: bytes)
    ensures Survives([], x, y) && |x + y| <= 4
  {
    hide Terminated, DecMsg, Defaults;
    x, y := [1, 1], [];
    assert x + y == x;
    Framing.EmptyRecord(x);
    NoBytes();
    EmptyRuns(x);
    assert 0 in DecMsg([], x, Defaults([])).value && 0 !in DecMsg([], y, Defaults([])).value;
  }

  lemma NoBytes()
    ensures Defaults([]) == map[] && DecMsg([], [], map[]) == Ok(map[], 0)
  {
    assert DecLoop([], [], Start(map[])) == Done(Start(map[]), 0, false);
  }

  lemma EmptyRuns(x: bytes)
    requires x == [1, 1]
    ensures !Terminated([], x)
  {
    assert x[1..] == [1] && x[2..] == [];
    assert DecTag(x) == Tag(0, 1, 1) && DecScalar(LAST_FIELD, [1]) == Ok(VBool(true), 1);
    assert RecordLength([], x) == Some(2);
  }

  // A type that is not determined has messages of which something survives.
  lemma {:induction false} SomethingSurvives(fields: seq<Field>, n: nat) returns (x: bytes, y: bytes)
    requires Rich(fields, n) && !Determined(fields) && n < TWO32
    ensures Survives(fields, x, y) && |x + y| <= n
    decreases fields
  {
    hide WellFormed, NoFixedCount, Samples, Survives, Tracked, RequiredBefore;
    var recs: seq<bytes> :| Samples(fields, recs) && RichBelow(fields, n - 2 * Total(recs) - 20);
    SamplesEach(fields, recs);
    if fields == [] {
      x, y := EmptySurvives();
    } else if j: nat :| j < |fields| && !Tracked(fields, j) {
      x, y := OptionalSurvives(fields, recs, j);
    } else {
      var i := Undetermined(fields);
      RichParts(fields[i].sub, n - 2 * Total(recs) - 20);
      var a, b := SomethingSurvives(fields[i].sub, n - 2 * Total(recs) - 20);
      NestedSurvives(fields, recs, i, a, b);
      x, y := Around(fields, recs, i, a), Around(fields, recs, i, b);
      AroundLength(fields, recs, i, a);
      AroundLength(fields, recs, i, b);
    }
  }

  lemma SamplesEach(fields: seq<Field>, recs: seq<bytes>)
    requires Samples(fields, recs)
    ensures |recs| == |fields|
  {
    hide Sample;
  }

  lemma RichParts(fields: seq<Field>, n: int)
    requires Rich(fields, n)
    ensures WellFormed(fields) && NoFixedCount(fields)
  {
    hide WellFormed, NoFixedCount, Samples;
  }

  // All fields are required and tracked, so it is a submessage that makes the difference.
  lemma Undetermined(fields: seq<Field>) returns (i: nat)
    requires fields != [] && !Determined(fields) && forall j: nat :: j < |fields| ==> Tracked(fields, j)
    ensures i < |fields| && Tracked(fields, i) && fields[i].ltype.TSubmessage? && !Determined(fields[i].sub)
  {
    hide RequiredBefore;
    forall j | 0 <= j < |fields|
      ensures fields[j].htype.Required?
    {
      assert Tracked(fields, j);
    }
    RequiredIndex(fields, |fields| - 1);
    assert Tracked(fields, |fields| - 1);
    i :| 0 <= i < |fields| && fields[i].ltype.TSubmessage? && !Determined(fields[i].sub);
  }

  lemma AroundLength(fields: seq<Field>, recs: seq<bytes>, i: nat, z: bytes)
    requires WellFormed(fields) && |recs| == |fields| && i < |fields| && |z| < TWO32
    ensures |Around(fields, recs, i, z)| <= |z| + 10 + Total(recs)
  {
    hide WellFormed, Wrapped, RequiredBefore;
    assert WellFormedField(fields[i]) by { WellFormedParts(fields); }
    WrapLength(fields[i], z);
    MustLength(fields, recs, 0, i);
    assert recs[0..] == recs;
  }

  // Where every field can hold something other than its default, the message before makes
  // no difference exactly when every message sets every field.
  lemma ForgetfulIffDetermined(fields: seq<Field>)
    requires Rich(fields, TWO32 - 1)
    ensures Forgetful(fields) <==> Determined(fields)
  {
    hide Rich, Determined, DecMsg, Terminated, Defaults;
    RichParts(fields, TWO32 - 1);
    if Determined(fields) {
      DeterminedForgets(fields);
    } else {
      var x, y := SomethingSurvives(fields, TWO32 - 1);
      assert Readable(fields, x) && Readable(fields, y);
    }
  }

  // ---------- which types are rich ----------

  // A scalar field has a sample as soon as it can hold a value that is not its default;
  // for an optional field with a has-flag, an array or a member of a oneof any value will do.
  lemma ScalarSample(fields: seq<Field>, j: nat, v: Value)
    requires WellFormed(fields) && j < |fields| && !FixedCount(fields[j]) && !fields[j].ltype.TSubmessage?
    requires ValidScalar(fields[j], v)
    requires fields[j].htype.Required? || (fields[j].htype.Optional? && fields[j].sizeOffset == 0) ==>
               v != fields[j].init
    ensures Sample(fields, j, EncRecord(fields[j], v))
  {
    hide Step, WellFormed, Offset, RequiredBefore, WellFormedField, EncRecord, ValidScalar, Defaults;
    var f, st := fields[j], Start(Defaults(fields));
    assert LayoutOk(fields) && WellFormedField(f) by { WellFormedParts(fields); }
    UnfoldField(f);
    DefaultIs(fields);
    RoundTrip.DefaultAt(fields, |fields|, j, map[]);
    RoomForOne(f);
    ScalarStep(fields, j, v, st);
  }

  lemma ScalarStep(fields: seq<Field>, j: nat, v: Value, st: State)
    requires WellFormed(fields) && j < |fields| && !FixedCount(fields[j]) && !fields[j].ltype.TSubmessage?
    requires ValidScalar(fields[j], v) && st.fixedField.None?
    requires var slot := Get(st.msg, Offset(fields, j));
             fields[j].htype.Repeated? ==> |ItemsOf(slot)| < Capacity(fields[j])
    ensures var rec, slot := EncRecord(fields[j], v), Get(st.msg, Offset(fields, j));
            && IsRecord(fields, rec, st) && DecTag(rec).Tag? && DecTag(rec).tag == fields[j].tag
            && Get(Step(fields, rec, st).st.msg, Offset(fields, j)) == StoreValue(fields[j], slot, 0, v)
  {
    hide DecTag, EncTag, DecScalar, EncScalar, WellFormed, Offset, RequiredBefore, Lookup, WellFormedField, DecBlock,
      DecPacked, StoreValue, ValidScalar;
    var f, offset := fields[j], Offset(fields, j);
    assert WellFormedField(f) by { WellFormedParts(fields); }
    UnfoldField(f);
    LookupKnown(fields, j) by { TagsNonzero(fields); }
    var rec, tag, body := EncRecord(f, v), EncTag(WireTypeOf(f.ltype), f.tag), EncScalar(f, v);
    ScalarAt(f, f, v, []);
    TagOf(WireTypeOf(f.ltype), f.tag, body);
    assert rec == tag + body by { assert EncValue(f, v) == body; }
    assert body + [] == body && rec[|tag|..] == body;
    var slot := Get(st.msg, offset);
    var value := DecValue(f, body, slot);
    assert value == Ok(v, |body|);
    var r := DecField(f, WireTypeOf(f.ltype), body, slot, st.fixedCount);
    assert r == Ok((StoreValue(f, slot, st.fixedCount, v), st.fixedCount), |body|) by { NotPackedRun(f); }
    StoredAnyhow(f, slot, st.fixedCount, v);
    var known := DecKnown(fields, j, WireTypeOf(f.ltype), body, st);
    assert Step(fields, rec, st) == Next(known.st, |rec|);
  }

  lemma NotPackedRun(f: Field)
    ensures !(WireTypeOf(f.ltype) == WT_STRING && Packable(f.ltype))
  {
  }

  lemma StoredAnyhow(f: Field, slot: Slot, c: nat, v: Value)
    requires !FixedCount(f)
    ensures StoreValue(f, slot, c, v) == StoreValue(f, slot, 0, v)
  {
  }

  lemma RoomForOne(f: Field)
    requires WellFormedField(f)
    ensures f.htype.Repeated? ==> Capacity(f) >= 1
    ensures f.htype.Oneof? ==> f.tag != 0
  {
  }

  // A message type that is not lost by a record that replaces it: one required bool.
  lemma OneBool()
    ensures var fields := [Field(1, Static, Required, TBool, 0, 0, 1, 0, [], VBool(false))];
            Rich(fields, TWO32 - 1) && Determined(fields)
  {
    var f := Field(1, Static, Required, TBool, 0, 0, 1, 0, [], VBool(false));
    SingleLayout(f);
    ScalarSample([f], 0, VBool(true));
    SingleRich(f, EncRecord(f, VBool(true)));
  }

  // The same bool, but optional.
  lemma OneFlag()
    ensures var fields := [Field(1, Static, Optional, TBool, 0, 1, 1, 0, [], VBool(false))];
            Rich(fields, TWO32 - 1) && !Determined(fields)
  {
    var f := Field(1, Static, Optional, TBool, 0, 1, 1, 0, [], VBool(false));
    SingleLayout(f);
    ScalarSample([f], 0, VBool(true));
    SingleRich(f, EncRecord(f, VBool(true)));
    assert [f][0] == f;
  }

  lemma SingleLayout(f: Field)
    requires WellFormedField(f) && !f.htype.Repeated?
    ensures WellFormed([f]) && NoFixedCount([f])
  {
    assert Extent(f) > 0;
  }

  lemma SingleRich(f: Field, rec: bytes)
    requires WellFormed([f]) && NoFixedCount([f]) && Sample([f], 0, rec) && |rec| <= 100 && !f.ltype.TSubmessage?
    ensures Rich([f], TWO32 - 1)
  {
    hide WellFormed, NoFixedCount, Sample;
    var recs := [rec];
    assert recs[1..] == [] && Total(recs[1..]) == 0 && Total(recs) == |rec|;
    assert Samples([f], recs) && RichBelow([f], TWO32 - 1 - 2 * Total(recs) - 20);
  }
}
