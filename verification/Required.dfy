// Required fields: the check at the end of a message asks exactly for those that are
// tracked and never occurred.
module Required {
  import opened Wire
  import opened Fields
  import opened Encoding
  import opened Decoding
  import opened Schema
  import opened Transfer

  // The tags of the records a run gets through.
  function TagsRead(fields: seq<Field>, s: bytes, st: State): seq<nat>
    decreases |s|
  {
    if s == [] then []
    else
      match (DecTag(s), Step(fields, s, st))
      case (Tag(tag, _, _), Next(st', n)) => [tag] + TagsRead(fields, s[n..], st')
      case _ => []
  }

  // Field j is required and among those the decoder can track.
  ghost predicate Tracked(fields: seq<Field>, j: nat) {
    j < |fields| && fields[j].htype.Required? && RequiredBefore(fields, j) < MAX_REQUIRED_FIELDS
  }

  lemma StepSeen(fields: seq<Field>, s: bytes, st: State, j: nat)
    requires Step(fields, s, st).Next? && Tracked(fields, j)
    requires forall i, k :: 0 <= i < k < |fields| ==> fields[i].tag != fields[k].tag
    ensures DecTag(s).Tag?
    ensures RequiredBefore(fields, j) in Step(fields, s, st).st.seen <==>
            RequiredBefore(fields, j) in st.seen || DecTag(s).tag == fields[j].tag
  {
    hide DecTag, DecField, Wire.SkipField;
    var tag := DecTag(s);
    LookupKnown(fields, j);
    var known := Lookup(fields, tag.tag);
    if known.Some? {
      var i := known.value;
      assert FieldAt(fields, i) == fields[i];
      if i < j { if fields[i].htype.Required? { RequiredMonotone(fields, i, j); } }
      else if j < i { RequiredMonotone(fields, j, i); }
    }
  }

  // A tracked field counts as seen exactly when one of the records had its tag.
  lemma {:induction false} SeenIffRead(fields: seq<Field>, s: bytes, st: State, j: nat)
    requires DecLoop(fields, s, st).Done? && Tracked(fields, j)
    requires forall i, k :: 0 <= i < k < |fields| ==> fields[i].tag != fields[k].tag
    ensures RequiredBefore(fields, j) in DecLoop(fields, s, st).st.seen <==>
            RequiredBefore(fields, j) in st.seen || fields[j].tag in TagsRead(fields, s, st)
    decreases |s|
  {
    hide Step, DecTag, RequiredBefore;
    if s != [] && Step(fields, s, st).Next? {
      var r := Step(fields, s, st);
      StepSeen(fields, s, st, j);
      SeenIffRead(fields, s[r.n..], r.st, j);
    }
  }

  // pb_decode_noinit reports a missing required field exactly when one of the first
  // MAX_REQUIRED_FIELDS required fields did not occur.
  lemma MissingIffAbsent(fields: seq<Field>, s: bytes, m: Message)
    requires DecLoop(fields, s, Start(m)).Done?
    requires forall i, k :: 0 <= i < k < |fields| ==> fields[i].tag != fields[k].tag
    ensures RequiredDone(fields, DecLoop(fields, s, Start(m)).st.seen) <==>
            forall j: nat :: Tracked(fields, j) ==> fields[j].tag in TagsRead(fields, s, Start(m))
  {
    hide DecLoop, TagsRead, RequiredBefore;
    var seen := DecLoop(fields, s, Start(m)).st.seen;
    forall j: nat | Tracked(fields, j)
      ensures RequiredBefore(fields, j) in seen <==> fields[j].tag in TagsRead(fields, s, Start(m))
      ensures RequiredBefore(fields, j) < RequiredBefore(fields, |fields|)
    {
      SeenIffRead(fields, s, Start(m), j);
      RequiredMonotone(fields, j, |fields|);
    }
    if forall j: nat :: Tracked(fields, j) ==> fields[j].tag in TagsRead(fields, s, Start(m)) {
      forall r | 0 <= r < RequiredBefore(fields, |fields|) && r < MAX_REQUIRED_FIELDS
        ensures r in seen
      {
        var j := RequiredField(fields, |fields|, r);
        assert Tracked(fields, j);
      }
    }
  }
}
