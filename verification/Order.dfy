// Field order and concatenation: laws of decoding that hold for arbitrary input bytes.
module Order {
  import opened Wire
  import opened Fields
  import opened Encoding
  import opened Decoding
  import opened Locality
  import opened Records

  // ---------- what a record of one field leaves alone ----------

  lemma {:induction false} PackedCounter(f: Field, data: bytes, s: Slot, c: nat)
    requires !FixedCount(f) && DecPacked(f, data, s, c).Some?
    ensures DecPacked(f, data, s, c).value.1 == c
    decreases |data|
  {
    if data != [] {
      var r := DecScalar(f, data);
      PackedCounter(f, data[r.n..], PutItem(f, s, c, r.value), c);
    }
  }

  lemma CounterKept(f: Field, wireType: nat, s: bytes, slot: Slot, c: nat)
    requires !FixedCount(f) && DecField(f, wireType, s, slot, c).Ok?
    ensures DecField(f, wireType, s, slot, c).value.1 == c
  {
    hide DecBlock, DecPacked, DecValue;
    if f.htype.Repeated? && wireType == WT_STRING && Packable(f.ltype) {
      PackedCounter(f, DecBlock(s).value, slot, c);
    }
  }

  // ---------- concatenation is merge ----------

  function AddSeen(r: Run, more: set<nat>): Run {
    match r
    case Done(st, n, stopped) => Done(st.(seen := st.seen + more), n, stopped)
    case Failed => Failed
  }

  lemma StepAddSeen(fields: seq<Field>, s: bytes, st: State, more: set<nat>)
    ensures Step(fields, s, st.(seen := st.seen + more)) ==
            match Step(fields, s, st)
            case Next(st', n) => Next(st'.(seen := st'.seen + more), n)
            case Stop(n) => Stop(n)
            case Error => Error
  {
    hide DecTag, DecField, Wire.SkipField;
    var tag := DecTag(s);
    if tag.Tag? && Lookup(fields, tag.tag).Some? {
      var i := Lookup(fields, tag.tag).value;
      assert MarkSeen(fields, i, st.seen) + more == MarkSeen(fields, i, st.seen + more);
    }
  }

  lemma {:induction false} LoopAddSeen(fields: seq<Field>, s: bytes, st: State, more: set<nat>)
    ensures DecLoop(fields, s, st.(seen := st.seen + more)) == AddSeen(DecLoop(fields, s, st), more)
    decreases |s|
  {
    hide Step;
    StepAddSeen(fields, s, st, more);
    var r := Step(fields, s, st);
    if s != [] && r.Next? {
      LoopAddSeen(fields, s[r.n..], r.st, more);
    }
  }

  lemma StepNoFixed(fields: seq<Field>, s: bytes, st: State)
    requires NoFixedCount(fields) && Step(fields, s, st).Next?
    ensures Step(fields, s, st).st.fixedField == st.fixedField
    ensures Step(fields, s, st).st.fixedCount == st.fixedCount
  {
    hide DecTag, DecField, Wire.SkipField;
    var tag := DecTag(s);
    var i := Lookup(fields, tag.tag);
    if i.Some? {
      var f := FieldAt(fields, i.value);
      CounterKept(f, tag.wireType, s[tag.n..], Get(st.msg, Offset(fields, i.value)), st.fixedCount);
    }
  }

  lemma {:induction false} LoopNoFixed(fields: seq<Field>, s: bytes, st: State)
    requires NoFixedCount(fields) && DecLoop(fields, s, st).Done?
    ensures DecLoop(fields, s, st).st.fixedField == st.fixedField
    ensures DecLoop(fields, s, st).st.fixedCount == st.fixedCount
    decreases |s|
  {
    hide Step;
    var r := Step(fields, s, st);
    if s != [] && r.Next? {
      StepNoFixed(fields, s, st);
      LoopNoFixed(fields, s[r.n..], r.st);
    }
  }

  // pb_decode_noinit merges: when a and then b are decoded into one structure, a single
  // call on a ++ b succeeds with the same structure, unless a is ended by a zero tag.
  lemma ConcatenationMerges(fields: seq<Field>, a: bytes, b: bytes, m: Message)
    requires NoFixedCount(fields)
    requires DecMsg(fields, a, m).Ok? && !DecLoop(fields, a, Start(m)).stopped
    requires DecMsg(fields, b, DecMsg(fields, a, m).value).Ok?
    ensures DecMsg(fields, a + b, m).Ok?
    ensures DecMsg(fields, a + b, m).value == DecMsg(fields, b, DecMsg(fields, a, m).value).value
    ensures DecMsg(fields, a + b, m).n == |a| + DecMsg(fields, b, DecMsg(fields, a, m).value).n
  {
    hide DecLoop;
    var ra := DecLoop(fields, a, Start(m));
    LoopNoFixed(fields, a, Start(m));
    LoopConcat(fields, a, b, Start(m));
    LoopAddSeen(fields, b, Start(ra.st.msg), ra.st.seen);
    assert {} + ra.st.seen == ra.st.seen;
    assert Start(ra.st.msg).(seen := {} + ra.st.seen) == ra.st;
    LoopNoFixed(fields, b, Start(ra.st.msg));
  }

  // A zero tag between records ends the message, whatever follows.
  lemma {:induction false} StoppedIgnoresRest(fields: seq<Field>, a: bytes, b: bytes, st: State)
    requires DecLoop(fields, a, st).Done? && Terminated(fields, a)
    ensures DecLoop(fields, a + b, st) == DecLoop(fields, a, st)
    decreases |a|
  {
    hide DecTag, Lookup, DecKnown, RecordLength, Wire.SkipField;
    var r := Step(fields, a, st);
    if r.Next? {
      StepTakes(fields, a, st);
      StepLocal(fields, a, b, st, st);
      assert (a + b)[r.n..] == a[r.n..] + b;
      StoppedIgnoresRest(fields, a[r.n..], b, r.st);
    } else {
      TerminatorLocal(a, b);
    }
  }

  lemma TerminatorLocal(a: bytes, b: bytes)
    requires DecTag(a).Terminator?
    ensures DecTag(a + b) == DecTag(a)
  {
    hide DecVarint32;
    Varint32Local(a, b);
  }

  // What a caller expects of two messages that were both decoded: that one call on the
  // concatenation gives the same structure and takes all that the two calls took.
  predicate Merges(fields: seq<Field>, a: bytes, b: bytes, m: Message)
    requires DecMsg(fields, a, m).Ok? && DecMsg(fields, b, DecMsg(fields, a, m).value).Ok?
  {
    var second := DecMsg(fields, b, DecMsg(fields, a, m).value);
    DecMsg(fields, a + b, m) == Ok(second.value, |a| + second.n)
  }

  // Merging holds exactly when no zero tag stands between the records of a.
  lemma MergesUnlessTerminated(fields: seq<Field>, a: bytes, b: bytes, m: Message)
    requires NoFixedCount(fields) && b != []
    requires DecMsg(fields, a, m).Ok? && DecMsg(fields, b, DecMsg(fields, a, m).value).Ok?
    ensures Merges(fields, a, b, m) <==> !Terminated(fields, a)
  {
    hide DecLoop, Terminated, NoFixedCount;
    StoppedIsTerminated(fields, a, Start(m));
    if Terminated(fields, a) {
      StoppedIgnoresRest(fields, a, b, Start(m));
      Progress(fields, b, Start(DecMsg(fields, a, m).value));
    } else {
      ConcatenationMerges(fields, a, b, m);
    }
  }

  // After a zero tag the second message is lost: the structure is right all the same
  // exactly when the second message changes nothing.
  lemma TerminatorLosesRest(fields: seq<Field>, a: bytes, b: bytes, m: Message)
    requires DecMsg(fields, a, m).Ok? && Terminated(fields, a)
    ensures DecMsg(fields, a + b, m) == DecMsg(fields, a, m)
  {
    hide DecLoop, Terminated;
    StoppedIgnoresRest(fields, a, b, Start(m));
  }

  lemma Progress(fields: seq<Field>, s: bytes, st: State)
    requires DecLoop(fields, s, st).Done? && s != []
    ensures DecLoop(fields, s, st).n >= 1
  {
    hide Step;
  }

  // Such messages: a lone terminator, and a bool that would have been set.
  lemma TerminatorHidesRest()
    ensures var fields := [Field(1, Static, Required, TBool, 0, 0, 1, 0, [], VBool(false))];
            var m := map[0 := One(VBool(false))];
            var a, b := [8, 0, 0], [8, 1];
            && DecMsg(fields, a, m) == Ok(m, 3) && Terminated(fields, a)
            && DecMsg(fields, b, m) == Ok(map[0 := One(VBool(true))], 2)
            && DecMsg(fields, a + b, m) == Ok(m, 3)
  {
    var f := Field(1, Static, Required, TBool, 0, 0, 1, 0, [], VBool(false));
    var m := map[0 := One(VBool(false))];
    BoolStopped(f, m);
    BoolMessage(f, 1, m);
    TerminatorLosesRest([f], [8, 0, 0], [8, 1], m);
  }

  lemma BoolStopped(f: Field, m: Message)
    requires f == Field(1, Static, Required, TBool, 0, 0, 1, 0, [], VBool(false)) && m == map[0 := One(VBool(false))]
    ensures DecMsg([f], [8, 0, 0], m) == Ok(m, 3) && Terminated([f], [8, 0, 0])
  {
    BoolRecord(f, 0, [0], Start(m));
    var a: bytes, zero: bytes := [8, 0, 0], [0];
    var st := Start(m).(seen := {0});
    assert [8, 0] + zero == a && a[2..] == zero && st.msg == m[0 := One(VBool(false))];
    assert DecTag(zero) == Terminator(1) && Step([f], zero, st) == Stop(1);
    assert DecLoop([f], zero, st) == Done(st, 1, true);
    assert DecLoop([f], a, Start(m)) == Done(st, 3, true);
    OneRequired(f);
    StoppedIsTerminated([f], a, Start(m));
  }

  lemma BoolMessage(f: Field, b: byte, m: Message)
    requires f == Field(1, Static, Required, TBool, 0, 0, 1, 0, [], VBool(false)) && b < 128 && m.Keys == {0}
    ensures DecMsg([f], [8, b], m) == Ok(map[0 := One(VBool(b != 0))], 2)
  {
    hide Step, RequiredBefore;
    BoolRecord(f, b, [], Start(m));
    var s: bytes, none: bytes := [8, b], [];
    assert s + none == s && s[2..] == none;
    var st := State(m[0 := One(VBool(b != 0))], {} + {0}, None, 0);
    assert DecLoop([f], none, st) == Done(st, 0, false);
    assert m[0 := One(VBool(b != 0))] == map[0 := One(VBool(b != 0))];
    OneRequired(f);
  }

  lemma OneRequired(f: Field)
    requires f.htype.Required?
    ensures RequiredBefore([f], 1) == 1
  {
    assert RequiredBefore([f], 0) == 0;
  }

  // A record of a single bool field with tag 1.
  lemma BoolRecord(f: Field, b: byte, t: bytes, st: State)
    requires f == Field(1, Static, Required, TBool, 0, 0, 1, 0, [], VBool(false)) && b < 128
    ensures Step([f], [8, b] + t, st) ==
              Next(State(st.msg[0 := One(VBool(b != 0))], st.seen + {0}, st.fixedField, st.fixedCount), 2)
  {
    var s := [8, b] + t;
    assert DecTag(s) == Tag(1, 0, 1);
    assert s[1..] == [b] + t;
    assert Lookup([f], 1) == Some(0);
    var known := DecKnown([f], 0, 0, s[1..], st);
    assert DecScalar(f, s[1..]) == Ok(VBool(b != 0), 1);
    var value := DecValue(f, s[1..], Get(st.msg, 0));
    var field := DecField(f, 0, s[1..], Get(st.msg, 0), st.fixedCount);
    assert known == Next(State(st.msg[0 := One(VBool(b != 0))], st.seen + {0}, st.fixedField, st.fixedCount), 1);
  }

  // ---------- field order ----------

  // One complete record: tag and payload, readable into some structure.
  ghost predicate IsRecord(fields: seq<Field>, rec: bytes, st: State) {
    Step(fields, rec, st).Next? && Step(fields, rec, st).n == |rec|
  }

  // How much a step consumes does not depend on the structure.
  lemma StepLength(fields: seq<Field>, s: bytes, st0: State, st: State)
    requires Step(fields, s, st0).Next?
    ensures Step(fields, s, st).Error? || (Step(fields, s, st).Next? && Step(fields, s, st).n == Step(fields, s, st0).n)
  {
    hide RecordLength, DecTag, Lookup, DecKnown, Wire.SkipField;
    StepTakes(fields, s, st0);
    if Step(fields, s, st).Next? { StepTakes(fields, s, st); }
  }

  // A change of another slot, and of the set of required fields seen, is a change of
  // the result in the same places.
  lemma KnownFrame(fields: seq<Field>, i: nat, wireType: nat, s: bytes, st: State, offset: nat, slot: Slot,
        more: set<nat>)
    requires i <= |fields| && offset != Offset(fields, i)
    ensures DecKnown(fields, i, wireType, s,
              State(st.msg[offset := slot], st.seen + more, st.fixedField, st.fixedCount)) ==
            match DecKnown(fields, i, wireType, s, st)
            case Next(r, n) => Next(State(r.msg[offset := slot], r.seen + more, r.fixedField, r.fixedCount), n)
            case Stop(n) => Stop(n)
            case Error => Error
  {
    hide DecField;
    var e := EnterFixed(fields, i, st);
    if e.Some? {
      var r := DecField(FieldAt(fields, i), wireType, s, Get(st.msg, Offset(fields, i)), e.value.fixedCount);
      if r.Ok? {
        assert st.msg[offset := slot][Offset(fields, i) := r.value.0] ==
                 st.msg[Offset(fields, i) := r.value.0][offset := slot];
        assert MarkSeen(fields, i, st.seen) + more == MarkSeen(fields, i, st.seen + more);
      }
    }
  }

  // The whole effect of a record whose array count is kept in the structure.
  lemma KnownEffect(fields: seq<Field>, j: nat, wireType: nat, s: bytes, st: State)
    requires j <= |fields| && !FixedCount(FieldAt(fields, j))
    ensures var slot := DecField(FieldAt(fields, j), wireType, s, Get(st.msg, Offset(fields, j)), st.fixedCount);
            DecKnown(fields, j, wireType, s, st) ==
            if slot.Ok? then
              var msg, seen := st.msg[Offset(fields, j) := slot.value.0], st.seen + MarkSeen(fields, j, {});
              Next(State(msg, seen, st.fixedField, st.fixedCount), slot.n)
            else Error
  {
    hide DecField;
    var slot := DecField(FieldAt(fields, j), wireType, s, Get(st.msg, Offset(fields, j)), st.fixedCount);
    if slot.Ok? {
      CounterKept(FieldAt(fields, j), wireType, s, Get(st.msg, Offset(fields, j)), st.fixedCount);
      assert MarkSeen(fields, j, st.seen) == st.seen + MarkSeen(fields, j, {});
    }
  }

  lemma FieldFixedFree(f: Field, wireType: nat, s: bytes, slot: Slot, c: nat, d: nat)
    requires !FixedCount(f)
    ensures DecField(f, wireType, s, slot, c).Ok? == DecField(f, wireType, s, slot, d).Ok?
    ensures DecField(f, wireType, s, slot, c).Ok? ==>
      && DecField(f, wireType, s, slot, c).value.0 == DecField(f, wireType, s, slot, d).value.0
      && DecField(f, wireType, s, slot, c).n == DecField(f, wireType, s, slot, d).n
  {
    hide DecBlock, DecPacked, DecValue;
    if f.htype.Repeated? && wireType == WT_STRING && Packable(f.ltype) && DecBlock(s).Ok? {
      PackedFixedFree(f, DecBlock(s).value, slot, c, d);
    }
  }

  lemma {:induction false} PackedFixedFree(f: Field, data: bytes, s: Slot, c: nat, d: nat)
    requires !FixedCount(f)
    ensures DecPacked(f, data, s, c).Some? == DecPacked(f, data, s, d).Some?
    ensures DecPacked(f, data, s, c).Some? ==> DecPacked(f, data, s, c).value.0 == DecPacked(f, data, s, d).value.0
    decreases |data|
  {
    hide DecScalar;
    var r := DecScalar(f, data);
    if data != [] && r.Ok? {
      PackedFixedFree(f, data[r.n..], PutItem(f, s, c, r.value), c, d);
    }
  }

  // Two fields with different storage, of which j keeps its count in the structure:
  // either order of their records gives the same structure, or both orders fail.
  lemma KnownCommute(fields: seq<Field>, i: nat, wi: nat, si: bytes, j: nat, wj: nat, sj: bytes, st: State)
    requires i <= |fields| && j <= |fields| && Offset(fields, i) != Offset(fields, j)
    requires !FixedCount(FieldAt(fields, j))
    ensures var a := DecKnown(fields, i, wi, si, st);
            var b := DecKnown(fields, j, wj, sj, st);
            && (a.Next? ==> DecKnown(fields, j, wj, sj, a.st).Next? == b.Next?)
            && (b.Next? ==> DecKnown(fields, i, wi, si, b.st).Next? == a.Next?)
            && (a.Next? && b.Next? ==>
                  DecKnown(fields, j, wj, sj, a.st).st == DecKnown(fields, i, wi, si, b.st).st)
  {
    var offset := Offset(fields, j);
    var a := DecKnown(fields, i, wi, si, st);
    var slot := DecField(FieldAt(fields, j), wj, sj, Get(st.msg, offset), st.fixedCount);
    var more := MarkSeen(fields, j, {});
    KnownEffect(fields, j, wj, sj, st);
    if a.Next? {
      KnownEffect(fields, j, wj, sj, a.st);
      KnownOtherSlot(fields, i, wi, si, st, offset);
      FieldFixedFree(FieldAt(fields, j), wj, sj, Get(st.msg, offset), st.fixedCount, a.st.fixedCount);
    }
    if slot.Ok? {
      KnownFrame(fields, i, wi, si, st, offset, slot.value.0, more);
    }
  }

  lemma KnownOtherSlot(fields: seq<Field>, i: nat, wireType: nat, s: bytes, st: State, offset: nat)
    requires i <= |fields| && offset != Offset(fields, i)
    requires DecKnown(fields, i, wireType, s, st).Next?
    ensures Get(DecKnown(fields, i, wireType, s, st).st.msg, offset) == Get(st.msg, offset)
  {
    hide DecField;
  }

  // What a complete record does in any state, whatever follows it.
  lemma RecordStep(fields: seq<Field>, rec: bytes, t: bytes, st0: State, st: State)
    requires IsRecord(fields, rec, st0)
    ensures DecLoop(fields, rec + t, st) ==
            if Step(fields, rec, st).Next? then Shift(|rec|, DecLoop(fields, t, Step(fields, rec, st).st)) else Failed
  {
    StepLocal(fields, rec, t, st0, st);
    StepLength(fields, rec, st0, st);
    if Step(fields, rec, st).Next? {
      LoopStep(fields, rec, t, st);
    } else {
      assert rec + t != [];
    }
  }

  // The field a record belongs to.
  function FieldOf(fields: seq<Field>, rec: bytes): Option<nat> {
    match DecTag(rec)
    case Tag(tag, _, _) => Lookup(fields, tag)
    case _ => None
  }

  // Records may be exchanged when they are for different fields that do not share
  // storage and are not both arrays with a fixed count, or when one is unknown.
  ghost predicate Exchangeable(fields: seq<Field>, r1: bytes, r2: bytes) {
    match (FieldOf(fields, r1), FieldOf(fields, r2))
    case (Some(i), Some(j)) =>
      && i < |fields| && j < |fields| && Leader(fields, i) != Leader(fields, j)
      && !(FixedCount(fields[i]) && FixedCount(fields[j]))
    case _ => true
  }

  lemma StepCommute(fields: seq<Field>, r1: bytes, r2: bytes, st1: State, st2: State, st: State)
    requires LayoutOk(fields) && Exchangeable(fields, r1, r2)
    requires IsRecord(fields, r1, st1) && IsRecord(fields, r2, st2)
    ensures var a, b := Step(fields, r1, st), Step(fields, r2, st);
            && (a.Next? ==> Step(fields, r2, a.st).Next? == b.Next?)
            && (b.Next? ==> Step(fields, r1, b.st).Next? == a.Next?)
            && (a.Next? && b.Next? ==> Step(fields, r2, a.st).st == Step(fields, r1, b.st).st)
  {
    hide DecTag, Lookup, DecKnown, Wire.SkipField;
    var t1, t2 := DecTag(r1), DecTag(r2);
    var i, j := FieldOf(fields, r1), FieldOf(fields, r2);
    if i.Some? && j.Some? {
      StorageDisjoint(fields, i.value, j.value);
      if FixedCount(fields[j.value]) {
        KnownCommute(fields, j.value, t2.wireType, r2[t2.n..], i.value, t1.wireType, r1[t1.n..], st);
      } else {
        KnownCommute(fields, i.value, t1.wireType, r1[t1.n..], j.value, t2.wireType, r2[t2.n..], st);
      }
    }
  }

  // Field-order independence: exchanging two adjacent records leaves the result of the
  // whole run unchanged, success or failure, in any state and with anything behind.
  lemma FieldOrder(fields: seq<Field>, r1: bytes, r2: bytes, t: bytes, st1: State, st2: State, st: State)
    requires LayoutOk(fields) && Exchangeable(fields, r1, r2)
    requires IsRecord(fields, r1, st1) && IsRecord(fields, r2, st2)
    ensures DecLoop(fields, r1 + (r2 + t), st) == DecLoop(fields, r2 + (r1 + t), st)
  {
    StepCommute(fields, r1, r2, st1, st2, st);
    RecordStep(fields, r1, r2 + t, st1, st);
    RecordStep(fields, r2, r1 + t, st2, st);
    var a, b := Step(fields, r1, st), Step(fields, r2, st);
    if a.Next? { RecordStep(fields, r2, t, st2, a.st); }
    if b.Next? { RecordStep(fields, r1, t, st1, b.st); }
  }

  // The same inside a whole message, behind any complete records.
  lemma MessageFieldOrder(fields: seq<Field>, p: bytes, r1: bytes, r2: bytes, t: bytes, st1: State, st2: State,
        m: Message)
    requires LayoutOk(fields) && Exchangeable(fields, r1, r2)
    requires IsRecord(fields, r1, st1) && IsRecord(fields, r2, st2)
    requires DecLoop(fields, p, Start(m)).Done? && !DecLoop(fields, p, Start(m)).stopped
    ensures DecMsg(fields, p + (r1 + (r2 + t)), m) == DecMsg(fields, p + (r2 + (r1 + t)), m)
  {
    LoopConcat(fields, p, r1 + (r2 + t), Start(m));
    LoopConcat(fields, p, r2 + (r1 + t), Start(m));
    FieldOrder(fields, r1, r2, t, st1, st2, DecLoop(fields, p, Start(m)).st);
  }
}
