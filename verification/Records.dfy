// Where records end, as far as the bytes alone tell.
module Records {
  import opened Wire
  import opened Fields
  import opened Encoding
  import opened Decoding

  // The length of a payload of field f.
  function PayloadLength(f: Field, wireType: nat, s: bytes): (r: Option<nat>)
    ensures r.Some? ==> 1 <= r.value <= |s|
  {
    if f.ltype.TSubmessage? || (f.htype.Repeated? && wireType == WT_STRING && Packable(f.ltype)) then
      match DecBlock(s)
      case Ok(_, n) => Some(n)
      case Fail => None
    else
      match DecScalar(f, s)
      case Ok(_, n) => Some(n)
      case Fail => None
  }

  // The length of the record at the front, tag and payload.
  function RecordLength(fields: seq<Field>, s: bytes): (r: Option<nat>)
    ensures r.Some? ==> 1 <= r.value <= |s|
  {
    match DecTag(s)
    case Tag(tag, wireType, n) =>
      (match Lookup(fields, tag)
       case Some(i) =>
         (match PayloadLength(FieldAt(fields, i), wireType, s[n..])
          case Some(k) => Some(n + k)
          case None => None)
       case None =>
         match SkipField(wireType, s[n..])
         case Ok(_, k) => Some(n + k)
         case Fail => None)
    case _ => None
  }

  // A zero tag stands where a record could.
  predicate Terminated(fields: seq<Field>, s: bytes)
    decreases |s|
  {
    if s == [] then false
    else if DecTag(s).Terminator? then true
    else
      match RecordLength(fields, s)
      case Some(n) => Terminated(fields, s[n..])
      case None => false
  }

  // No record for an empty message type, at whatever depth, has a tag of zero.
  predicate NoZeroTag(fields: seq<Field>, s: bytes)
    decreases |s|, 1
  {
    s == [] || (ZeroFree(fields, s) &&
      match RecordLength(fields, s)
      case Some(n) => NoZeroTag(fields, s[n..])
      case None => true)
  }

  // The same of the record at the front.
  predicate ZeroFree(fields: seq<Field>, s: bytes)
    decreases |s|, 0
  {
    match DecTag(s)
    case Tag(tag, _, n) =>
      && (fields == [] ==> tag != 0)
      && (match Lookup(fields, tag)
          case Some(i) => FieldAt(fields, i).ltype.TSubmessage? && DecBlock(s[n..]).Ok? ==>
            NoZeroTag(FieldAt(fields, i).sub, DecBlock(s[n..]).value)
          case None => true)
    case _ => true
  }

  lemma FieldTakes(f: Field, wireType: nat, s: bytes, slot: Slot, c: nat)
    requires DecField(f, wireType, s, slot, c).Ok?
    ensures PayloadLength(f, wireType, s) == Some(DecField(f, wireType, s, slot, c).n)
  {
    hide DecBlock, DecPacked, DecScalar, DecMsg;
  }

  // A step takes exactly the record at the front, whatever the structure holds.
  lemma StepTakes(fields: seq<Field>, s: bytes, st: State)
    requires Step(fields, s, st).Next?
    ensures RecordLength(fields, s) == Some(Step(fields, s, st).n)
  {
    hide DecTag, Lookup, DecField, Wire.SkipField, PayloadLength;
    var tag := DecTag(s);
    var i := Lookup(fields, tag.tag);
    if i.Some? {
      var k := DecKnown(fields, i.value, tag.wireType, s[tag.n..], st);
      var e := EnterFixed(fields, i.value, st).value;
      FieldTakes(FieldAt(fields, i.value), tag.wireType, s[tag.n..], Get(e.msg, Offset(fields, i.value)), e.fixedCount);
    }
  }

  // A run is stopped early exactly by a zero tag between its records.
  lemma {:induction false} StoppedIsTerminated(fields: seq<Field>, s: bytes, st: State)
    requires DecLoop(fields, s, st).Done?
    ensures DecLoop(fields, s, st).stopped <==> Terminated(fields, s)
    decreases |s|
  {
    hide DecTag, Lookup, DecKnown, RecordLength, Wire.SkipField;
    if s != [] {
      var r := Step(fields, s, st);
      if r.Next? {
        StepTakes(fields, s, st);
        StoppedIsTerminated(fields, s[r.n..], r.st);
      }
    }
  }
}
